/** The four message envelopes of a chat export and the date string built from the
    captured timestamp (src/lib/parseChat.ts:79-143).

    Each envelope is `^OPEN(TIMESTAMP)CLOSE([^:]+): (.+)$` with a fixed-width timestamp.
    `[^:]+` can only stop before a ':', so the sender runs up to the first ':' after the
    timestamp; `(.+)$` (no `m` flag) needs a non-empty rest with no line terminator. */
module ChatEnvelope {
  import opened Wrappers
  import opened Seqs
  import opened JsString

  /** The envelopes, in the order `parseChat` tries them. */
  datatype Format =
    | DashYearFirst   // YYYY/MM/DD, HH:MM - sender: text
    | BracketSpace    // [DD/MM/YY HH:MM:SS] sender: text
    | BracketComma    // [DD/MM/YYYY, HH:MM:SS] sender: text
    | DashDayFirst    // DD/MM/YY, HH:MM - sender: text

  const Formats: seq<Format> := [DashYearFirst, BracketSpace, BracketComma, DashDayFirst]

  /** The timestamp's shape: 'd' stands for `\d`, every other character for itself.
      The date part, the separator and the time part are kept apart. */
  function Layout(f: Format): string {
    DateLayout(f) + [TimeSeparator(f)] + TimeLayout(f)
  }

  function DateLayout(f: Format): string {
    match f
    case DashYearFirst => "dddd/dd/dd"
    case BracketComma => "dd/dd/dddd"
    case _ => "dd/dd/dd"
  }

  function TimeSeparator(f: Format): char {
    if f == BracketSpace then ' ' else ','
  }

  function TimeLayout(f: Format): string {
    match f
    case DashYearFirst => " dd:dd"
    case BracketSpace => "dd:dd:dd"
    case BracketComma => " dd:dd:dd"
    case DashDayFirst => " dd:dd"
  }

  function Opening(f: Format): string {
    if f == BracketSpace || f == BracketComma then "[" else ""
  }

  function Closing(f: Format): string {
    if f == BracketSpace || f == BracketComma then "] " else " - "
  }

  predicate FitsLayout(s: string, layout: string) {
    && |s| == |layout|
    && forall k :: 0 <= k < |s| ==> if layout[k] == 'd' then IsDigit(s[k]) else s[k] == layout[k]
  }

  /** The three capture groups. */
  datatype Envelope = Envelope(timestamp: string, sender: string, content: string)

  /** What `[^:]+` can capture. */
  predicate IsSender(s: string) { |s| > 0 && ':' !in s }

  /** What `(.+)$` can capture. */
  predicate IsContent(s: string) { |s| > 0 && forall k :: 0 <= k < |s| ==> !IsLineTerminator(s[k]) }

  /** `^OPEN(LAYOUT)CLOSE([^:]+): (.+)$` matched against `line`. */
  function MatchEnvelope(line: string, open: string, layout: string, close: string): (r: Option<Envelope>)
    ensures r.Some? ==> line == open + r.value.timestamp + close + r.value.sender + ": " + r.value.content
    ensures r.Some? ==> FitsLayout(r.value.timestamp, layout) && IsSender(r.value.sender) && IsContent(r.value.content)
  {
    var a := |open|;
    var b := a + |layout|;
    var c := b + |close|;
    if c <= |line| && line[..a] == open && FitsLayout(line[a..b], layout) && line[b..c] == close then
      var rest := line[c..];
      var colon := IndexOf(rest, ':');
      if 1 <= colon && colon + 2 < |rest| && rest[colon + 1] == ' ' && IsContent(rest[colon + 2..]) then
        SplitEnvelope(line, a, b, c, colon);
        Some(Envelope(line[a..b], rest[..colon], rest[colon + 2..]))
      else None
    else None
  }

  lemma SplitEnvelope(line: string, a: nat, b: nat, c: nat, colon: nat)
    requires a <= b <= c <= |line| && colon + 2 < |line| - c
    requires line[c..][colon] == ':' && line[c..][colon + 1] == ' '
    ensures line == line[..a] + line[a..b] + line[b..c] + line[c..][..colon] + ": " + line[c..][colon + 2..]
  {
    var rest := line[c..];
    assert rest == rest[..colon] + ": " + rest[colon + 2..];
    assert line == line[..a] + line[a..b] + line[b..c] + rest;
  }

  /** The converse: a line made of a timestamp of the right shape, a sender without ':'
      and a one-line content matches, and the groups are exactly those parts. */
  lemma MatchEnvelopeComplete(open: string, layout: string, close: string, timestamp: string, sender: string, content: string)
    requires FitsLayout(timestamp, layout) && IsSender(sender) && IsContent(content)
    ensures MatchEnvelope(open + timestamp + close + sender + ": " + content, open, layout, close)
      == Some(Envelope(timestamp, sender, content))
  {
    var rest := sender + ": " + content;
    var line := open + timestamp + close + rest;
    Assemble(open, timestamp, close, sender, content);
    HeadParts(open, timestamp, close, rest);
    SenderParts(sender, content);
    MatchParts(line, open, layout, close, rest, timestamp, sender, content);
  }

  lemma Assemble(open: string, timestamp: string, close: string, sender: string, content: string)
    ensures open + timestamp + close + sender + ": " + content == open + timestamp + close + (sender + ": " + content)
  {
  }

  lemma MatchParts(line: string, open: string, layout: string, close: string, rest: string,
                   timestamp: string, sender: string, content: string)
    requires FitsLayout(timestamp, layout) && IsSender(sender) && IsContent(content)
    requires |line| == |open| + |layout| + |close| + |rest|
    requires line[..|open|] == open && line[|open|..|open| + |layout|] == timestamp
    requires line[|open| + |layout|..|open| + |layout| + |close|] == close
    requires line[|open| + |layout| + |close|..] == rest
    requires |rest| == |sender| + 2 + |content|
    requires IndexOf(rest, ':') == |sender| && rest[..|sender|] == sender
    requires rest[|sender| + 1] == ' ' && rest[|sender| + 2..] == content
    ensures MatchEnvelope(line, open, layout, close) == Some(Envelope(timestamp, sender, content))
  {
  }

  lemma HeadParts(open: string, timestamp: string, close: string, rest: string)
    ensures var line := open + timestamp + close + rest;
      var b := |open| + |timestamp|;
      && line[..|open|] == open && line[|open|..b] == timestamp
      && line[b..b + |close|] == close && line[b + |close|..] == rest
  {
  }

  lemma SenderParts(sender: string, content: string)
    requires IsSender(sender)
    ensures var rest := sender + ": " + content;
      && IndexOf(rest, ':') == |sender| && rest[..|sender|] == sender
      && rest[|sender| + 1] == ' ' && rest[|sender| + 2..] == content
  {
    var rest := sender + ": " + content;
    assert rest[..|sender|] == sender;
    IndexOfAt(rest, ':', |sender|);
  }

  /** `line.match(format)` */
  function MatchFormat(line: string, f: Format): (r: Option<Envelope>)
    ensures r.Some? ==> line == Opening(f) + r.value.timestamp + Closing(f) + r.value.sender + ": " + r.value.content
    ensures r.Some? ==> FitsLayout(r.value.timestamp, Layout(f)) && IsSender(r.value.sender) && IsContent(r.value.content)
  {
    MatchEnvelope(line, Opening(f), Layout(f), Closing(f))
  }

  /** The converse of `MatchFormat`'s contract. */
  lemma MatchFormatComplete(f: Format, timestamp: string, sender: string, content: string)
    requires FitsLayout(timestamp, Layout(f)) && IsSender(sender) && IsContent(content)
    ensures MatchFormat(Opening(f) + timestamp + Closing(f) + sender + ": " + content, f)
      == Some(Envelope(timestamp, sender, content))
  {
    MatchEnvelopeComplete(Opening(f), Layout(f), Closing(f), timestamp, sender, content);
  }

  /** What each format's match gives, in the order the formats are tried. */
  function Matches(line: string): (ms: seq<Option<Envelope>>)
    ensures |ms| == |Formats|
    ensures forall k :: 0 <= k < |ms| ==> ms[k] == MatchFormat(line, Formats[k])
  {
    seq(|Formats|, k requires 0 <= k < |Formats| => MatchFormat(line, Formats[k]))
  }

  /** The envelope loop: the first format that matches, with its groups. */
  function Classify(line: string): (r: Option<(Format, Envelope)>)
    ensures r.Some? ==> MatchFormat(line, r.value.0) == Some(r.value.1)
    ensures r.None? <==> forall k :: 0 <= k < |Formats| ==> MatchFormat(line, Formats[k]).None?
  {
    var ms := Matches(line);
    match FirstPresent(ms, 0)
    case None => None
    case Some((k, e)) => Some((Formats[k], e))
  }

  /** No line matches two envelopes, so trying them in order never changes the result. */
  lemma FormatsExclusive(line: string, f: Format, g: Format)
    requires MatchFormat(line, f).Some? && MatchFormat(line, g).Some?
    ensures f == g
  {
    var ef := MatchFormat(line, f).value;
    var eg := MatchFormat(line, g).value;
    Regroup(line, Opening(f), ef, Closing(f));
    Regroup(line, Opening(g), eg, Closing(g));
    LineStart(line, f, ef);
    LineStart(line, g, eg);
  }

  /** What the fixed start of a matched line tells apart. */
  lemma LineStart(line: string, f: Format, e: Envelope)
    requires line == Opening(f) + e.timestamp + (Closing(f) + e.sender + ": " + e.content)
    requires FitsLayout(e.timestamp, Layout(f))
    ensures |line| > 9
    ensures (f == BracketSpace || f == BracketComma) <==> line[0] == '['
    ensures f == DashYearFirst ==> line[4] == '/'
    ensures f == DashDayFirst ==> IsDigit(line[4])
    ensures f == BracketSpace ==> line[9] == ' '
    ensures f == BracketComma ==> IsDigit(line[9])
  {
    TimestampAt(line, Opening(f), e.timestamp, Closing(f) + e.sender + ": " + e.content);
    assert |e.timestamp| > 9 - |Opening(f)|;
    match f
    case DashYearFirst =>
      assert Layout(f)[0] == 'd' && Layout(f)[4] == '/';
    case DashDayFirst =>
      assert Layout(f)[0] == 'd' && Layout(f)[4] == 'd';
    case BracketSpace =>
      assert Layout(f)[8] == ' ';
    case BracketComma =>
      assert Layout(f)[8] == 'd';
  }

  lemma Regroup(line: string, open: string, e: Envelope, close: string)
    requires line == open + e.timestamp + close + e.sender + ": " + e.content
    ensures line == open + e.timestamp + (close + e.sender + ": " + e.content)
  {
  }

  /** Where the timestamp sits in a line. */
  lemma TimestampAt(line: string, open: string, timestamp: string, tail: string)
    requires line == open + timestamp + tail
    ensures forall k :: 0 <= k < |open| ==> line[k] == open[k]
    ensures forall k :: 0 <= k < |timestamp| ==> line[|open| + k] == timestamp[k]
  {
  }

  /** The envelope the loop picks is the only one that matches. */
  lemma ClassifyUnique(line: string, f: Format)
    requires MatchFormat(line, f).Some?
    ensures Classify(line) == Some((f, MatchFormat(line, f).value))
  {
    var r := Classify(line);
    assert f == Formats[0] || f == Formats[1] || f == Formats[2] || f == Formats[3];
    assert r.Some?;
    FormatsExclusive(line, f, r.value.0);
  }

  /** A line whose last character is a carriage return (a CRLF file split on '\n')
      matches no envelope: the content may not hold a line terminator. */
  lemma TrailingCarriageReturnNeverMatches(line: string, f: Format)
    requires |line| > 0 && line[|line| - 1] == '\r'
    ensures MatchFormat(line, f).None?
  {
  }

  /** A carriage return inside the sender does not prevent a match: `[^:]` admits it. */
  lemma CarriageReturnInSenderMatches(line: string)
    requires line == "[01/02/23 10:11:12] a\rb: R5"
    ensures MatchFormat(line, BracketSpace) == Some(Envelope("01/02/23 10:11:12", "a\rb", "R5"))
  {
    ExampleParts(line);
    MatchFormatComplete(BracketSpace, "01/02/23 10:11:12", "a\rb", "R5");
  }

  lemma ExampleParts(line: string)
    requires line == "[01/02/23 10:11:12] a\rb: R5"
    ensures FitsLayout("01/02/23 10:11:12", Layout(BracketSpace))
    ensures IsSender("a\rb") && IsContent("R5")
    ensures Opening(BracketSpace) + "01/02/23 10:11:12" + Closing(BracketSpace) + "a\rb" + ": " + "R5" == line
  {
    ExampleTimestamp();
    assert "a\rb"[2] == 'b';
  }

  lemma ExampleTimestamp()
    ensures FitsLayout("01/02/23 10:11:12", Layout(BracketSpace))
  {
    var ts := "01/02/23 10:11:12";
    var l := Layout(BracketSpace);
    forall k | 0 <= k < |ts| ensures if l[k] == 'd' then IsDigit(ts[k]) else ts[k] == l[k] {
    }
  }
}
