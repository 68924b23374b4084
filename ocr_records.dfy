/** What the records of `extractPaymentInfo` are (src/lib/ocrProcessor.ts:37-188): each
    one comes from one line, either from one global match of one symbol pattern or from
    one registered code; and every such match and every such code yields its record. */
module OcrRecords {
  import opened Wrappers
  import opened Seqs
  import opened JsString
  import opened PaymentRecords
  import opened OcrSymbols
  import opened OcrItem
  import opened OcrCodes
  import opened OcrExtract
  import opened Decimal

  /** The record a match `h` of pattern `p` makes on `line`: the amount its numeral
      reads as, the pattern's currency, the trimmed line and the item inferred for the
      pattern's symbol. */
  function MatchRecord(lines: seq<string>, line: string, p: SymbolPattern, h: Hit): (d: Detection)
    requires |p.symbol| > 0 && IsHitAt(line, p.symbol, h)
    ensures d.amount >= 0.0 && d.currency == p.currency && d.text == Trim(line)
  {
    HitBounds(line, p.symbol, h);
    GreedyNumeralAmount(line, h.numStart);
    Detection(OcrAmount(line[h.numStart..h.numEnd]).value, p.currency, Trim(line), InferItem(lines, line, p.symbol))
  }

  /** A pattern makes exactly one record per global match, in the order of the matches. */
  lemma PatternLineRecordsExact(lines: seq<string>, line: string, p: SymbolPattern)
    requires |p.symbol| > 0
    ensures |PatternLineRecords(lines, line, p)| == |PatternHits(line, p)|
    ensures forall k :: 0 <= k < |PatternHits(line, p)| ==>
      PatternLineRecords(lines, line, p)[k] == MatchRecord(lines, line, p, PatternHits(line, p)[k])
  {
    var hs := PatternHits(line, p);
    var context := Trim(line);
    var item := InferItem(lines, line, p.symbol);
    EveryHitRecorded(line, p, hs, context, item);
    PatternRecordsShape(line, p, hs, context, item);
  }

  /** A record is in the symbol scan over `ps` exactly when one of the patterns makes it. */
  lemma SymbolRecordsMembers(lines: seq<string>, line: string, ps: seq<SymbolPattern>, d: Detection)
    requires forall k :: 0 <= k < |ps| ==> |ps[k].symbol| > 0
    ensures d in SymbolRecords(lines, line, ps) <==> exists k :: 0 <= k < |ps| && d in PatternLineRecords(lines, line, ps[k])
  {
    var f := PatternRecorder(lines, line);
    FlattenMembers(ps, f, d);
    assert forall k :: 0 <= k < |ps| ==> f(ps[k]) == PatternLineRecords(lines, line, ps[k]);
  }

  /** A record is in the records of the lines `ls` exactly when one of them makes it. */
  lemma LinesRecordsMembers(lines: seq<string>, ls: seq<string>, d: Detection)
    ensures d in LinesRecords(lines, ls) <==> exists i :: 0 <= i < |ls| && d in LineRecords(lines, ls[i])
  {
    var f := LineRecorder(lines);
    FlattenMembers(ls, f, d);
    assert forall i :: 0 <= i < |ls| ==> f(ls[i]) == LineRecords(lines, ls[i]);
  }

  /** `d` is the record of a global match of one of the twelve symbol patterns on `line`. */
  predicate SymbolMatchRecord(lines: seq<string>, line: string, d: Detection) {
    SymbolsNonEmpty();
    exists k, j :: 0 <= k < |SymbolPatterns| && 0 <= j < |PatternHits(line, SymbolPatterns[k])|
      && d == MatchRecord(lines, line, SymbolPatterns[k], PatternHits(line, SymbolPatterns[k])[j])
  }

  /** `d` is the record the code scan makes on `line` for one of the registered codes. */
  predicate CodeMatchRecord(line: string, d: Detection) {
    exists c :: 0 <= c < |SupportedCurrencies| && CodeRecord(line, SupportedCurrencies[c]) == Some(d)
  }

  /** The records of a line are exactly the records of its symbol matches and of its
      codes. */
  lemma LineRecordsMembers(lines: seq<string>, line: string, d: Detection)
    ensures d in LineRecords(lines, line) <==> SymbolMatchRecord(lines, line, d) || CodeMatchRecord(line, d)
  {
    SymbolsNonEmpty();
    SymbolRecordsMembers(lines, line, SymbolPatterns, d);
    CodeRecordsMembers(line, SupportedCurrencies, d);
    forall k | 0 <= k < |SymbolPatterns|
      ensures d in PatternLineRecords(lines, line, SymbolPatterns[k]) <==>
        exists j :: 0 <= j < |PatternHits(line, SymbolPatterns[k])|
          && d == MatchRecord(lines, line, SymbolPatterns[k], PatternHits(line, SymbolPatterns[k])[j])
    {
      PatternLineRecordsExact(lines, line, SymbolPatterns[k]);
    }
  }

  /** Soundness and completeness of `extractPaymentInfo`: a record is returned exactly
      when some line of the text makes it, from a symbol match or from a code. */
  lemma PaymentInfoMembers(ocrText: string, d: Detection)
    ensures d in PaymentInfo(ocrText) <==>
      exists i :: 0 <= i < |SplitLines(ocrText)| && d in LineRecords(SplitLines(ocrText), SplitLines(ocrText)[i])
    ensures forall i :: 0 <= i < |SplitLines(ocrText)| ==>
      (d in LineRecords(SplitLines(ocrText), SplitLines(ocrText)[i]) <==>
        SymbolMatchRecord(SplitLines(ocrText), SplitLines(ocrText)[i], d) || CodeMatchRecord(SplitLines(ocrText)[i], d))
  {
    var lines := SplitLines(ocrText);
    LinesRecordsMembers(lines, lines, d);
    forall i | 0 <= i < |lines|
      ensures d in LineRecords(lines, lines[i]) <==> SymbolMatchRecord(lines, lines[i], d) || CodeMatchRecord(lines[i], d)
    {
      LineRecordsMembers(lines, lines[i], d);
    }
  }

  /** Every record of a line carries a non-negative amount and the trimmed line. */
  lemma LineRecordSound(lines: seq<string>, line: string, d: Detection)
    requires d in LineRecords(lines, line)
    ensures d.amount >= 0.0 && d.text == Trim(line)
  {
    LineRecordsMembers(lines, line, d);
    if SymbolMatchRecord(lines, line, d) {
      SymbolRecordSound(lines, line, d);
    } else {
      var c :| 0 <= c < |SupportedCurrencies| && CodeRecord(line, SupportedCurrencies[c]) == Some(d);
    }
  }

  lemma SymbolRecordSound(lines: seq<string>, line: string, d: Detection)
    requires SymbolMatchRecord(lines, line, d)
    ensures d.amount >= 0.0 && d.text == Trim(line)
  {
    SymbolsNonEmpty();
    var k, j :| 0 <= k < |SymbolPatterns| && 0 <= j < |PatternHits(line, SymbolPatterns[k])|
      && d == MatchRecord(lines, line, SymbolPatterns[k], PatternHits(line, SymbolPatterns[k])[j]);
  }

  /** Every record returned carries a non-negative amount and the trimmed text of a
      line of the input. */
  lemma PaymentInfoSound(ocrText: string, d: Detection)
    requires d in PaymentInfo(ocrText)
    ensures d.amount >= 0.0
    ensures exists i :: 0 <= i < |SplitLines(ocrText)| && d.text == Trim(SplitLines(ocrText)[i])
  {
    var lines := SplitLines(ocrText);
    LinesRecordsMembers(lines, lines, d);
    var i :| 0 <= i < |lines| && d in LineRecords(lines, lines[i]);
    LineRecordSound(lines, lines[i], d);
  }

  /** Every global match of every symbol pattern on every line is returned, with the
      amount of its numeral. */
  lemma EveryMatchReturned(ocrText: string, i: nat, k: nat, j: nat)
    requires i < |SplitLines(ocrText)| && k < |SymbolPatterns|
    requires |SymbolPatterns[k].symbol| > 0
    requires j < |PatternHits(SplitLines(ocrText)[i], SymbolPatterns[k])|
    ensures MatchRecord(SplitLines(ocrText), SplitLines(ocrText)[i], SymbolPatterns[k], PatternHits(SplitLines(ocrText)[i], SymbolPatterns[k])[j])
      in PaymentInfo(ocrText)
  {
    var lines := SplitLines(ocrText);
    var d := MatchRecord(lines, lines[i], SymbolPatterns[k], PatternHits(lines[i], SymbolPatterns[k])[j]);
    assert SymbolMatchRecord(lines, lines[i], d);
    PaymentInfoMembers(ocrText, d);
  }

  /** Every record the code scan makes on a line is returned. */
  lemma EveryCodeReturned(ocrText: string, i: nat, c: nat)
    requires i < |SplitLines(ocrText)| && c < |SupportedCurrencies|
    requires CodeRecord(SplitLines(ocrText)[i], SupportedCurrencies[c]).Some?
    ensures CodeRecord(SplitLines(ocrText)[i], SupportedCurrencies[c]).value in PaymentInfo(ocrText)
  {
    var lines := SplitLines(ocrText);
    var d := CodeRecord(lines[i], SupportedCurrencies[c]).value;
    assert CodeMatchRecord(lines[i], d);
    PaymentInfoMembers(ocrText, d);
  }

  /** JPY and CNY share the yen sign, so each match of it is returned twice, as a JPY
      record and as a CNY record that differ in nothing else. */
  lemma YenSignRecordedTwice(ocrText: string, i: nat, j: nat)
    requires i < |SplitLines(ocrText)| && j < |PatternHits(SplitLines(ocrText)[i], SymbolPatterns[7])|
    ensures SymbolPatterns[7].symbol == SymbolPatterns[8].symbol
    ensures MatchRecord(SplitLines(ocrText), SplitLines(ocrText)[i], SymbolPatterns[7], PatternHits(SplitLines(ocrText)[i], SymbolPatterns[7])[j]).currency == JPY
    ensures MatchRecord(SplitLines(ocrText), SplitLines(ocrText)[i], SymbolPatterns[7], PatternHits(SplitLines(ocrText)[i], SymbolPatterns[7])[j])
      in PaymentInfo(ocrText)
    ensures MatchRecord(SplitLines(ocrText), SplitLines(ocrText)[i], SymbolPatterns[7], PatternHits(SplitLines(ocrText)[i], SymbolPatterns[7])[j]).(currency := CNY)
      in PaymentInfo(ocrText)
  {
    var lines := SplitLines(ocrText);
    var jpy, cny := SymbolPatterns[7], SymbolPatterns[8];
    var h := PatternHits(lines[i], jpy)[j];
    EveryMatchReturned(ocrText, i, 7, j);
    YenPatternsAgree(lines, lines[i], jpy, cny, h);
    EveryMatchReturned(ocrText, i, 8, j);
  }

  /** Two patterns with one symbol have the same matches and records that differ only
      in their currency. */
  lemma YenPatternsAgree(lines: seq<string>, line: string, p: SymbolPattern, q: SymbolPattern, h: Hit)
    requires |p.symbol| > 0 && p.symbol == q.symbol && IsHitAt(line, p.symbol, h)
    ensures PatternHits(line, q) == PatternHits(line, p)
    ensures MatchRecord(lines, line, q, h) == MatchRecord(lines, line, p, h).(currency := q.currency)
  {
  }

  /** No match of a symbol pattern without a digit. */
  lemma NoDigitNoHits(s: string, symbol: string, from: nat)
    requires |symbol| > 0 && forall k :: 0 <= k < |s| ==> !IsDigit(s[k])
    ensures Hits(s, symbol, from) == []
  {
    if NextHit(s, symbol, from).Some? {
      var h := NextHit(s, symbol, from).value;
      HitBounds(s, symbol, h);
      assert false;
    }
  }

  /** Nothing is collected when `f` yields nothing. */
  lemma CollectNothing<A, B>(xs: seq<A>, f: A -> Option<B>)
    requires forall k :: 0 <= k < |xs| ==> f(xs[k]).None?
    ensures Collect(xs, f) == []
  {
    if Collect(xs, f) != [] {
      CollectMembers(xs, f, Collect(xs, f)[0]);
      assert false;
    }
  }

  /** A line without a digit makes no record: neither a symbol nor a code pattern can
      match there. */
  lemma NoDigitNoRecords(lines: seq<string>, line: string)
    requires forall k :: 0 <= k < |line| ==> !IsDigit(line[k])
    ensures LineRecords(lines, line) == []
  {
    SymbolsNonEmpty();
    forall k | 0 <= k < |SymbolPatterns|
      ensures PatternLineRecords(lines, line, SymbolPatterns[k]) == []
    {
      NoDigitNoHits(line, SymbolPatterns[k].symbol, 0);
      PatternLineRecordsExact(lines, line, SymbolPatterns[k]);
    }
    NoPatternRecords(lines, line, SymbolPatterns);
    forall c | 0 <= c < |SupportedCurrencies|
      ensures CodeRecorder(line)(SupportedCurrencies[c]).None?
    {
      if CodeRecord(line, SupportedCurrencies[c]).Some? {
        assert false;
      }
    }
    CollectNothing(SupportedCurrencies, CodeRecorder(line));
  }

  lemma NoPatternRecords(lines: seq<string>, line: string, ps: seq<SymbolPattern>)
    requires forall k :: 0 <= k < |ps| ==> |ps[k].symbol| > 0
    requires forall k :: 0 <= k < |ps| ==> PatternLineRecords(lines, line, ps[k]) == []
    ensures SymbolRecords(lines, line, ps) == []
  {
    if SymbolRecords(lines, line, ps) != [] {
      SymbolRecordsMembers(lines, line, ps, SymbolRecords(lines, line, ps)[0]);
      assert false;
    }
  }

  /** An OCR text without a digit, the empty one among them, yields no record. */
  lemma NoDigitNoPaymentInfo(ocrText: string)
    requires forall k :: 0 <= k < |ocrText| ==> !IsDigit(ocrText[k])
    ensures PaymentInfo(ocrText) == []
  {
    var lines := SplitLines(ocrText);
    if PaymentInfo(ocrText) != [] {
      var d := PaymentInfo(ocrText)[0];
      PaymentInfoMembers(ocrText, d);
      var i :| 0 <= i < |lines| && d in LineRecords(lines, lines[i]);
      forall k | 0 <= k < |lines[i]| ensures !IsDigit(lines[i][k]) {
        SplitLinesChars(ocrText, i, k);
      }
      NoDigitNoRecords(lines, lines[i]);
      assert false;
    }
  }

  /** `R$5` is read both by the dollar pattern, whose `$` matches inside it, and by
      the real pattern: one USD record and one BRL record of 5. */
  lemma RealSignReadTwice(text: string)
    requires text == "R$5"
    ensures exists d :: d in PaymentInfo(text) && d.currency == USD && d.amount == 5.0
    ensures exists d :: d in PaymentInfo(text) && d.currency == BRL && d.amount == 5.0
  {
    RealSignPieces(text);
    var usd := SinglePatternRecord(text, 1, 1);
    var brl := SinglePatternRecord(text, 6, 0);
  }

  /** The record pattern `k` makes for its first match on the one-line text `R$5`,
      which starts at `i`: its amount is 5. */
  lemma SinglePatternRecord(text: string, k: nat, i: nat) returns (d: Detection)
    requires text == "R$5" && k < |SymbolPatterns| && i < 2
    requires NumeralStart(text, SymbolPatterns[k].symbol, i) == Some(2)
    requires forall j :: 0 <= j < i ==> NumeralStart(text, SymbolPatterns[k].symbol, j).None?
    ensures d in PaymentInfo(text) && d.currency == SymbolPatterns[k].currency && d.amount == 5.0
  {
    var p := SymbolPatterns[k];
    assert SplitLines(text) == [text];
    FiveReadsAsFive();
    assert text[2..3] == "5";
    FirstHit(text, p, i, 2);
    EveryMatchReturned(text, 0, k, 0);
    d := MatchRecord(SplitLines(text), text, p, PatternHits(text, p)[0]);
  }

  /** Where the dollar and the real patterns match on `R$5`. */
  lemma RealSignPieces(text: string)
    requires text == "R$5"
    ensures SymbolPatterns[1] == SymbolPattern(USD, "$") && SymbolPatterns[6] == SymbolPattern(BRL, "R$")
    ensures NumeralStart(text, "$", 0).None? && NumeralStart(text, "$", 1) == Some(2)
    ensures NumeralStart(text, "R$", 0) == Some(2)
  {
    assert text[1..2] == "$" && text[0..2] == "R$";
    assert SkipSpaces(text, 2) == 2;
  }

  lemma FiveReadsAsFive()
    ensures OcrAmount("5") == Some(5.0)
  {
    OcrWholeNumeral("5");
    assert "5"[..0] == "";
  }

  /** When the first match lies at `i`, it is the first hit of the global scan. */
  lemma FirstHit(s: string, p: SymbolPattern, i: nat, j: nat)
    requires |p.symbol| > 0 && i < |s| && NumeralStart(s, p.symbol, i) == Some(j)
    requires forall k :: 0 <= k < i ==> NumeralStart(s, p.symbol, k).None?
    ensures j < |s| && IsDigit(s[j])
    ensures |PatternHits(s, p)| > 0 && PatternHits(s, p)[0] == Hit(i, j, NumeralEnd(s, j))
  {
    NextHitHere(s, p.symbol, i, j);
    NextHitSkips(s, p.symbol, 0, i);
  }

  /** The scan passes over positions where no match starts. */
  lemma {:induction false} NextHitSkips(s: string, symbol: string, from: nat, i: nat)
    requires from <= i < |s|
    requires forall k :: from <= k < i ==> NumeralStart(s, symbol, k).None?
    ensures NextHit(s, symbol, from) == NextHit(s, symbol, i)
    decreases i - from
  {
    if from < i {
      NextHitSkips(s, symbol, from + 1, i);
    }
  }
}
