/** `parseChat` (src/lib/parseChat.ts:58-166): a chat export becomes the payment
    records it mentions, newest first.

    Each line is trimmed and skipped when blank, matched against the four envelopes in
    order, searched for an amount with the six currency patterns in registry order, and
    turned into a record whose instant is `new Date` of the rebuilt date string. Every
    line that yields no record is counted as skipped. `new Date` is the parameter
    `parseDate`. */
module ParseChat {
  import opened Wrappers
  import opened Seqs
  import opened JsString
  import opened PaymentRecords
  import opened ChatAmount
  import opened ChatEnvelope
  import opened ChatDate
  import opened ChatSort

  /** A timestamp an envelope captured has one of the four shapes. */
  lemma CapturedTimestamp(line: string, f: Format)
    requires MatchFormat(line, f).Some?
    ensures IsTimestamp(MatchFormat(line, f).value.timestamp)
  {
  }

  /** A line some envelope matches is never blank: its timestamp starts with a digit. */
  lemma MatchedLineIsNotBlank(line: string, f: Format)
    requires MatchFormat(line, f).Some?
    ensures Trim(line) != []
  {
    var e := MatchFormat(line, f).value;
    Regroup(line, Opening(f), e, Closing(f));
    assert Layout(f)[0] == 'd';
    DigitIsNotBlank(line, Opening(f), e.timestamp, Closing(f) + e.sender + ": " + e.content);
  }

  lemma DigitIsNotBlank(line: string, open: string, ts: string, tail: string)
    requires line == open + ts + tail && |ts| > 0 && IsDigit(ts[0])
    ensures Trim(line) != []
  {
    assert line[|open|] == ts[0];
  }

  /** What one line of the chat contributes: a record, or nothing when it is skipped. */
  function ParseLine(line: string, parseDate: string -> Instant): Option<Message> {
    if Trim(line) == [] then None
    else match Classify(line)
      case None => None
      case Some((f, e)) =>
        match DetectAmount(e.content)
        case None => None
        case Some((c, a)) =>
          CapturedTimestamp(line, f);
          Some(Message(parseDate(DateString(e.timestamp)), e.sender, e.content, a, c, None))
  }

  /** A record comes from a line that is exactly an envelope around its sender and its
      content; its currency and amount are the ones the currency loop finds in that
      content, and its instant is the one the rebuilt date string gives. */
  lemma ParseLineSound(line: string, parseDate: string -> Instant, m: Message)
    requires ParseLine(line, parseDate) == Some(m)
    ensures exists f: Format, ts: string ::
        && FitsLayout(ts, Layout(f))
        && line == Opening(f) + ts + Closing(f) + m.sender + ": " + m.content
        && m.timestamp == parseDate(DateString(ts))
        && DetectAmount(m.content) == Some((m.currency, m.amount))
        && m.ocr.None?
  {
    var f := Classify(line).value.0;
    var e := Classify(line).value.1;
    CapturedTimestamp(line, f);
    RecordOfEnvelope(line, f, e, m, parseDate);
  }

  lemma RecordOfEnvelope(line: string, f: Format, e: Envelope, m: Message, parseDate: string -> Instant)
    requires MatchFormat(line, f) == Some(e) && IsTimestamp(e.timestamp)
    requires m.sender == e.sender && m.content == e.content && m.ocr.None?
    requires m.timestamp == parseDate(DateString(e.timestamp))
    requires DetectAmount(m.content) == Some((m.currency, m.amount))
    ensures exists f: Format, ts: string ::
        && FitsLayout(ts, Layout(f))
        && line == Opening(f) + ts + Closing(f) + m.sender + ": " + m.content
        && m.timestamp == parseDate(DateString(ts))
        && DetectAmount(m.content) == Some((m.currency, m.amount))
        && m.ocr.None?
  {
    assert FitsLayout(e.timestamp, Layout(f));
  }

  /** The converse: a line that is an envelope around a sender and a content in which
      the currency loop finds an amount yields exactly that record. */
  lemma ParseLineComplete(f: Format, ts: string, sender: string, content: string, parseDate: string -> Instant)
    requires FitsLayout(ts, Layout(f)) && IsSender(sender) && IsContent(content)
    requires DetectAmount(content).Some?
    ensures IsTimestamp(ts)
    ensures ParseLine(Opening(f) + ts + Closing(f) + sender + ": " + content, parseDate)
      == Some(Message(parseDate(DateString(ts)), sender, content,
                      DetectAmount(content).value.1, DetectAmount(content).value.0, None))
  {
    var line := Opening(f) + ts + Closing(f) + sender + ": " + content;
    MatchFormatComplete(f, ts, sender, content);
    ClassifyUnique(line, f);
    MatchedLineIsNotBlank(line, f);
    CapturedTimestamp(line, f);
  }

  /** A line with no envelope, or with no amount in its content, is skipped. */
  lemma ParseLineSkips(line: string, parseDate: string -> Instant)
    ensures Classify(line).None? ==> ParseLine(line, parseDate).None?
    ensures Classify(line).Some? && DetectAmount(Classify(line).value.1.content).None?
      ==> ParseLine(line, parseDate).None?
    ensures Trim(line) == [] ==> ParseLine(line, parseDate).None?
  {
    if Trim(line) == [] && Classify(line).Some? {
      MatchedLineIsNotBlank(line, Classify(line).value.0);
    }
  }

  /** `ParseLine` as a function value, for collecting over the lines. */
  function LineParser(parseDate: string -> Instant): string -> Option<Message> {
    line => ParseLine(line, parseDate)
  }

  /** The records the line loop collects from `lines`, in line order. */
  function Collected(lines: seq<string>, parseDate: string -> Instant): seq<Message> {
    Collect(lines, LineParser(parseDate))
  }

  /** A record is collected exactly when some line yields it. */
  lemma CollectedFromLines(lines: seq<string>, parseDate: string -> Instant, m: Message)
    ensures m in Collected(lines, parseDate) <==> exists k :: 0 <= k < |lines| && ParseLine(lines[k], parseDate) == Some(m)
  {
    CollectMembers(lines, LineParser(parseDate), m);
    assert forall k :: 0 <= k < |lines| ==> LineParser(parseDate)(lines[k]) == ParseLine(lines[k], parseDate);
  }

  /** Walking one more line adds its record, if any, at the end. */
  lemma CollectedStep(lines: seq<string>, i: nat, parseDate: string -> Instant)
    requires i < |lines|
    ensures Collected(lines[..i + 1], parseDate)
      == Collected(lines[..i], parseDate) + (match ParseLine(lines[i], parseDate) case None => [] case Some(m) => [m])
  {
    assert lines[..i + 1] == lines[..i] + [lines[i]];
    CollectSnoc(lines[..i], LineParser(parseDate), lines[i]);
  }

  lemma CollectedWhole(lines: seq<string>, parseDate: string -> Instant)
    ensures Collected(lines[..|lines|], parseDate) == Collected(lines, parseDate)
  {
    assert lines[..|lines|] == lines;
  }

  /** The lines `parseChat` walks: none for blank content, else the '\n'-pieces. */
  function ChatLines(content: string): seq<string> {
    if Trim(content) == [] then [] else Split(content, '\n')
  }

  /** The envelope loop of `parseChat`: the formats in order, stopping at the first
      that matches. */
  method MatchFirstFormat(line: string) returns (matched: Option<(Format, Envelope)>)
    ensures matched == Classify(line)
  {
    ghost var ms := Matches(line);
    var j := 0;
    while j < |Formats|
      invariant 0 <= j <= |Formats|
      invariant FirstPresent(ms, j) == FirstPresent(ms, 0)
    {
      var m := MatchFormat(line, Formats[j]);
      assert m == ms[j];
      if m.Some? {
        matched := Some((Formats[j], m.value));
        return;
      }
      j := j + 1;
    }
    matched := None;
  }

  /** The currency loop of `parseChat`: the patterns of `CURRENCY_PATTERNS` in
      registry order, stopping at the first that reads an amount. */
  method FindAmount(content: string) returns (found: Option<(Currency, real)>)
    ensures found == DetectAmount(content)
  {
    ghost var xs := Amounts(content);
    var patterns := CurrencyPatterns();
    var k := 0;
    while k < |patterns|
      invariant 0 <= k <= |patterns|
      invariant FirstPresent(xs, k) == FirstPresent(xs, 0)
    {
      var (currency, pattern) := patterns[k];
      assert pattern == PatternFor(SupportedCurrencies[k]);
      var amount := ExtractAmount(content, pattern);
      assert amount == xs[k];
      if amount.Some? {
        found := Some((currency, amount.value));
        return;
      }
      k := k + 1;
    }
    found := None;
  }

  /** `parseChat(content)`, also returning the number of skipped lines it logs. */
  method ParseChat(content: string, parseDate: string -> Instant) returns (messages: seq<Message>, skippedLines: nat)
    ensures Trim(content) == [] ==> messages == [] && skippedLines == 0
    ensures messages == SortNewestFirst(Collected(ChatLines(content), parseDate))
    ensures multiset(messages) == multiset(Collected(ChatLines(content), parseDate))
    ensures |messages| + skippedLines == |ChatLines(content)|
    ensures AllValid(messages) ==> NewestFirst(messages)
  {
    if Trim(content) == [] {
      return [], 0;
    }
    var lines := Split(content, '\n');
    var collected;
    collected, skippedLines := CollectLines(lines, parseDate);
    SortIsPermutation(collected);
    messages := SortNewestFirst(collected);
    assert |messages| == |collected| by {
      assert |multiset(messages)| == |multiset(collected)|;
    }
    if AllValid(messages) {
      SortedWhenValid(collected);
    }
  }

  /** The line loop of `parseChat`: the records of `lines` in line order, and how many
      lines were skipped. */
  method CollectLines(lines: seq<string>, parseDate: string -> Instant) returns (collected: seq<Message>, skippedLines: nat)
    ensures collected == Collected(lines, parseDate)
    ensures |collected| + skippedLines == |lines|
  {
    collected := [];
    skippedLines := 0;
    for i := 0 to |lines|
      invariant collected == Collected(lines[..i], parseDate)
      invariant |collected| + skippedLines == i
    {
      collected, skippedLines := CollectLine(lines, i, parseDate, collected, skippedLines);
      CollectedStep(lines, i, parseDate);
    }
    CollectedWhole(lines, parseDate);
  }

  /** One turn of the line loop: the record of line `i` is appended, or the line is
      counted as skipped. */
  method CollectLine(lines: seq<string>, i: nat, parseDate: string -> Instant, collected: seq<Message>, skippedLines: nat)
    returns (collected': seq<Message>, skippedLines': nat)
    requires i < |lines|
    ensures collected' == collected + (match ParseLine(lines[i], parseDate) case None => [] case Some(m) => [m])
    ensures |collected'| + skippedLines' == |collected| + skippedLines + 1
  {
    var parsed := ParseOneLine(lines[i], parseDate);
    match parsed
    case None =>
      collected', skippedLines' := collected, skippedLines + 1;
    case Some(m) =>
      collected', skippedLines' := collected + [m], skippedLines;
  }

  /** The body of the line loop: the record `line` yields, or nothing when it is
      skipped. */
  method ParseOneLine(line: string, parseDate: string -> Instant) returns (parsed: Option<Message>)
    ensures parsed == ParseLine(line, parseDate)
  {
    if Trim(line) == [] {
      return None;
    }
    var matched := MatchFirstFormat(line);
    if matched.None? {
      return None;
    }
    var (format, envelope) := matched.value;
    var found := FindAmount(envelope.content);
    if found.None? {
      return None;
    }
    CapturedTimestamp(line, format);
    var dateStr := DateString(envelope.timestamp);
    parsed := Some(Message(parseDate(dateStr), envelope.sender, envelope.content, found.value.1, found.value.0, None));
  }

  /** When every collected instant is valid, so is every sorted one, and the sort
      orders them newest first. */
  lemma SortedWhenValid(ms: seq<Message>)
    requires AllValid(SortNewestFirst(ms))
    ensures NewestFirst(SortNewestFirst(ms))
  {
    SortIsPermutation(ms);
    forall k | 0 <= k < |ms| ensures ms[k].timestamp.Time? {
      var s := SortNewestFirst(ms);
      assert ms[k] in multiset(s);
      var j :| 0 <= j < |s| && s[j] == ms[k];
    }
    SortIsOrdered(ms);
  }
}
