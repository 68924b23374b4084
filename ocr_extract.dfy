/** `extractPaymentInfo` (src/lib/ocrProcessor.ts:37-188). The records of the text are
    specified line by line (`LinesRecords`), and the loop that builds them is proved to
    produce exactly that. */
module OcrExtract {
  import opened Wrappers
  import opened JsString
  import opened PaymentRecords
  import opened OcrSymbols
  import opened OcrItem
  import opened OcrCodes
  import opened Seqs

  /** Greedy `\s*` stops at the same place in a slice that holds the whole run. */
  lemma {:induction false} SkipSpacesSlice(s: string, a: nat, b: nat, j: nat)
    requires a <= j <= b <= |s| && SkipSpaces(s, j) <= b
    ensures SkipSpaces(s[a..b], j - a) == SkipSpaces(s, j) - a
    decreases b - j
  {
    if j < b && IsSpace(s[j]) {
      assert s[a..b][j - a] == s[j];
      SkipSpacesSlice(s, a, b, j + 1);
    } else if j < b {
      assert s[a..b][j - a] == s[j];
    }
  }

  /** The same for greedy `\d*`. */
  lemma {:induction false} DigitsEndSlice(s: string, a: nat, b: nat, j: nat)
    requires a <= j <= b <= |s| && DigitsEnd(s, j) <= b
    ensures DigitsEnd(s[a..b], j - a) == DigitsEnd(s, j) - a
    decreases b - j
  {
    if j < b && IsDigit(s[j]) {
      assert s[a..b][j - a] == s[j];
      DigitsEndSlice(s, a, b, j + 1);
    } else if j < b {
      assert s[a..b][j - a] == s[j];
    }
  }

  /** The same for the greedy numeral. */
  lemma NumeralEndSlice(s: string, a: nat, b: nat, j: nat)
    requires a <= j < b <= |s| && IsDigit(s[j]) && NumeralEnd(s, j) <= b
    ensures IsDigit(s[a..b][j - a]) && NumeralEnd(s[a..b], j - a) == NumeralEnd(s, j) - a
  {
    var t := s[a..b];
    var d := DigitsEnd(s, j);
    assert t[j - a] == s[j];
    DigitsEndSlice(s, a, b, j);
    if d + 1 < |s| && ChatAmount.IsDecimalSeparator(s[d]) && IsDigit(s[d + 1]) {
      assert DigitsEnd(s, d + 1) <= b;
      assert t[d - a] == s[d] && t[d + 1 - a] == s[d + 1];
      DigitsEndSlice(s, a, b, d + 1);
    }
  }

  /** On its own text, a hit's match starts at 0 with the same numeral start. */
  lemma NumeralStartSlice(s: string, symbol: string, h: Hit)
    requires |symbol| > 0 && IsHitAt(s, symbol, h)
    ensures h.start < h.numStart < h.numEnd <= |s|
    ensures NumeralStart(s[h.start..h.numEnd], symbol, 0) == Some(h.numStart - h.start)
  {
    var m := s[h.start..h.numEnd];
    var j := h.start + |symbol|;
    assert OccursAt(s, h.start, symbol) && h.numStart == SkipSpaces(s, j);
    assert h.start < j <= h.numStart < h.numEnd <= |s|;
    SliceOfSlice(s, h.start, h.numEnd, 0, |symbol|);
    assert OccursAt(m, 0, symbol);
    SkipSpacesSlice(s, h.start, h.numEnd, j);
    assert m[h.numStart - h.start] == s[h.numStart];
  }

  /** `match.match(regex)`: matched again on its own text, a hit yields the numeral
      it was found with. */
  lemma RematchSameNumeral(s: string, symbol: string, h: Hit)
    requires |symbol| > 0 && IsHitAt(s, symbol, h)
    ensures h.start < h.numStart < h.numEnd <= |s|
    ensures NextHit(s[h.start..h.numEnd], symbol, 0) == Some(Hit(0, h.numStart - h.start, h.numEnd - h.start))
  {
    NumeralStartSlice(s, symbol, h);
    var m := s[h.start..h.numEnd];
    var j := h.numStart - h.start;
    NextHitHere(m, symbol, 0, j);
    NumeralEndSlice(s, h.start, h.numEnd, h.numStart);
  }

  /** `match.match(regex)` on the text of hit `h`, its capture with its first ','
      made '.', read by `parseFloat`; none when the amount would be `NaN` (and for a
      hit that does not lie within the line, which `matchAll` never yields). */
  function HitAmount(line: string, symbol: string, h: Hit): (r: Option<real>)
    ensures r.Some? ==> r.value >= 0.0
  {
    if h.start <= h.numEnd <= |line| then
      var m := line[h.start..h.numEnd];
      match NextHit(m, symbol, 0)
      case None => None
      case Some(g) => OcrAmount(m[g.numStart..g.numEnd])
    else None
  }

  /** The greedy numeral at a digit has an amount. */
  lemma GreedyNumeralAmount(s: string, j: nat)
    requires j < |s| && IsDigit(s[j])
    ensures OcrAmount(s[j..NumeralEnd(s, j)]).Some?
  {
    assert NumeralEnds(s, j)[0] == NumeralEnd(s, j);
    CandidateAmount(s, j, NumeralEnd(s, j));
  }

  /** The amount of a hit is the one of the numeral its text is matched with again. */
  lemma HitAmountOfRematch(line: string, symbol: string, h: Hit, g: Hit)
    requires h.start <= h.numEnd <= |line| && g.numStart <= g.numEnd <= h.numEnd - h.start
    requires NextHit(line[h.start..h.numEnd], symbol, 0) == Some(g)
    ensures HitAmount(line, symbol, h) == OcrAmount(line[h.start..h.numEnd][g.numStart..g.numEnd])
  {
  }

  /** The numeral of the re-run match, read inside the matched text, is the hit's own. */
  lemma RematchedNumeral(line: string, h: Hit, g: Hit)
    requires h.start <= h.numStart <= h.numEnd <= |line|
    requires g == Hit(0, h.numStart - h.start, h.numEnd - h.start)
    ensures line[h.start..h.numEnd][g.numStart..g.numEnd] == line[h.numStart..h.numEnd]
  {
    SliceOfSlice(line, h.start, h.numEnd, g.numStart, g.numEnd);
  }

  /** The `isNaN` guard never fires: every hit has an amount, the one of the numeral it
      was found with. */
  lemma HitAmountReadsTheHit(line: string, symbol: string, h: Hit)
    requires |symbol| > 0 && IsHitAt(line, symbol, h)
    ensures h.start < h.numStart < h.numEnd <= |line|
    ensures OcrAmount(line[h.numStart..h.numEnd]).Some?
    ensures HitAmount(line, symbol, h) == OcrAmount(line[h.numStart..h.numEnd])
  {
    assert h.start < h.numStart < h.numEnd <= |line| by {
      RematchSameNumeral(line, symbol, h);
    }
    var numeral := line[h.numStart..h.numEnd];
    assert HitAmount(line, symbol, h) == OcrAmount(numeral) by {
      RematchSameNumeral(line, symbol, h);
      var g := Hit(0, h.numStart - h.start, h.numEnd - h.start);
      HitAmountOfRematch(line, symbol, h, g);
      RematchedNumeral(line, h, g);
    }
    assert OcrAmount(numeral).Some? by {
      GreedyNumeralAmount(line, h.numStart);
    }
  }

  /** The record pushed for hit `h` of pattern `p`, if it has an amount. Its text (the
      trimmed line) and its item depend on neither the hit nor its amount, and are
      given. */
  function HitRecord(line: string, p: SymbolPattern, context: string, item: Option<string>, h: Hit): Option<Detection> {
    match HitAmount(line, p.symbol, h)
    case None => None
    case Some(amount) => Some(Detection(amount, p.currency, context, item))
  }

  function HitRecorder(line: string, p: SymbolPattern, context: string, item: Option<string>): Hit -> Option<Detection> {
    h => HitRecord(line, p, context, item, h)
  }

  /** The records pushed for the hits `hs` of pattern `p`, in order. */
  function PatternRecords(line: string, p: SymbolPattern, hs: seq<Hit>, context: string, item: Option<string>): seq<Detection> {
    Collect(hs, HitRecorder(line, p, context, item))
  }

  /** Every record of a pattern carries the pattern's currency, the given text and
      item, and an amount that is not negative. */
  lemma PatternRecordsShape(line: string, p: SymbolPattern, hs: seq<Hit>, context: string, item: Option<string>)
    ensures |PatternRecords(line, p, hs, context, item)| <= |hs|
    ensures forall k :: 0 <= k < |PatternRecords(line, p, hs, context, item)| ==>
      PatternRecords(line, p, hs, context, item)[k].currency == p.currency
      && PatternRecords(line, p, hs, context, item)[k].text == context
      && PatternRecords(line, p, hs, context, item)[k].item == item
      && PatternRecords(line, p, hs, context, item)[k].amount >= 0.0
  {
    var f := HitRecorder(line, p, context, item);
    var P := (d: Detection) => d.currency == p.currency && d.text == context && d.item == item && d.amount >= 0.0;
    forall h ensures f(h).Some? ==> P(f(h).value) {
      assert f(h) == HitRecord(line, p, context, item, h);
    }
    CollectAll(hs, f, P);
  }

  /** Recording one more hit adds its record, if it has an amount, at the end. */
  lemma PatternRecordsStep(line: string, p: SymbolPattern, hs: seq<Hit>, t: nat, context: string, item: Option<string>)
    requires t < |hs|
    ensures PatternRecords(line, p, hs[..t + 1], context, item)
      == PatternRecords(line, p, hs[..t], context, item)
        + (match HitRecord(line, p, context, item, hs[t]) case None => [] case Some(d) => [d])
  {
    assert hs[..t + 1] == hs[..t] + [hs[t]];
    CollectSnoc(hs[..t], HitRecorder(line, p, context, item), hs[t]);
  }

  /** A hit of the pattern's symbol makes a record, carrying the amount of its numeral. */
  lemma HitRecorded(line: string, p: SymbolPattern, context: string, item: Option<string>, h: Hit)
    requires |p.symbol| > 0 && IsHitAt(line, p.symbol, h)
    ensures h.start < h.numStart < h.numEnd <= |line|
    ensures HitRecord(line, p, context, item, h).Some?
    ensures OcrAmount(line[h.numStart..h.numEnd]) == Some(HitRecord(line, p, context, item, h).value.amount)
  {
    HitAmountReadsTheHit(line, p.symbol, h);
  }

  /** Each hit of a pattern makes one record, in the order of the hits, carrying the
      amount of its numeral. */
  lemma EveryHitRecorded(line: string, p: SymbolPattern, hs: seq<Hit>, context: string, item: Option<string>)
    requires |p.symbol| > 0
    requires forall k :: 0 <= k < |hs| ==> IsHitAt(line, p.symbol, hs[k])
    ensures |PatternRecords(line, p, hs, context, item)| == |hs|
    ensures forall k :: 0 <= k < |hs| ==>
      hs[k].start < hs[k].numStart < hs[k].numEnd <= |line|
      && OcrAmount(line[hs[k].numStart..hs[k].numEnd]) == Some(PatternRecords(line, p, hs, context, item)[k].amount)
  {
    var f := HitRecorder(line, p, context, item);
    forall k | 0 <= k < |hs|
      ensures f(hs[k]).Some?
    {
      HitRecorded(line, p, context, item, hs[k]);
      assert f(hs[k]) == HitRecord(line, p, context, item, hs[k]);
    }
    CollectTotal(hs, f);
    var rs := PatternRecords(line, p, hs, context, item);
    forall k | 0 <= k < |hs|
      ensures hs[k].start < hs[k].numStart < hs[k].numEnd <= |line|
      ensures OcrAmount(line[hs[k].numStart..hs[k].numEnd]) == Some(rs[k].amount)
    {
      HitRecorded(line, p, context, item, hs[k]);
      assert f(hs[k]) == HitRecord(line, p, context, item, hs[k]);
    }
  }

  /** The global matches of a pattern on a line. */
  function PatternHits(line: string, p: SymbolPattern): (hs: seq<Hit>)
    requires |p.symbol| > 0
    ensures forall k :: 0 <= k < |hs| ==> IsHitAt(line, p.symbol, hs[k]) && hs[k].start < hs[k].numStart < hs[k].numEnd <= |line|
  {
    Hits(line, p.symbol, 0)
  }

  /** The records one symbol pattern makes on `line`: one per global match, with the
      trimmed line as text and the item inferred for the pattern's symbol. */
  function PatternLineRecords(lines: seq<string>, line: string, p: SymbolPattern): seq<Detection>
    requires |p.symbol| > 0
  {
    PatternRecords(line, p, PatternHits(line, p), Trim(line), InferItem(lines, line, p.symbol))
  }

  /** `PatternLineRecords` as a function value, for concatenating over the patterns;
      every pattern of the table has a non-empty symbol. */
  function PatternRecorder(lines: seq<string>, line: string): SymbolPattern -> seq<Detection> {
    (p: SymbolPattern) => if |p.symbol| > 0 then PatternLineRecords(lines, line, p) else []
  }

  /** The records of the symbol scan over patterns `ps`, pattern by pattern. */
  function SymbolRecords(lines: seq<string>, line: string, ps: seq<SymbolPattern>): seq<Detection>
    requires forall k :: 0 <= k < |ps| ==> |ps[k].symbol| > 0
  {
    Flatten(ps, PatternRecorder(lines, line))
  }

  /** One more pattern adds that pattern's records at the end. */
  lemma SymbolRecordsStep(lines: seq<string>, line: string, ps: seq<SymbolPattern>, k: nat)
    requires k < |ps|
    requires forall j :: 0 <= j < |ps| ==> |ps[j].symbol| > 0
    ensures SymbolRecords(lines, line, ps[..k + 1])
      == SymbolRecords(lines, line, ps[..k]) + PatternLineRecords(lines, line, ps[k])
  {
    assert ps[..k + 1] == ps[..k] + [ps[k]];
    FlattenSnoc(ps[..k], PatternRecorder(lines, line), ps[k]);
  }

  /** The registered codes, in the order `Object.entries` gives, are distinct. */
  lemma SupportedCurrenciesDistinct()
    ensures forall i, j :: 0 <= i < j < |SupportedCurrencies| ==> SupportedCurrencies[i] != SupportedCurrencies[j]
  {
  }

  /** All records of one line: the symbol scan, then the code scan. */
  function LineRecords(lines: seq<string>, line: string): seq<Detection> {
    SymbolsNonEmpty();
    SupportedCurrenciesDistinct();
    SymbolRecords(lines, line, SymbolPatterns) + CodeRecords(line, SupportedCurrencies)
  }

  /** `LineRecords` as a function value, for concatenating over the lines. */
  function LineRecorder(lines: seq<string>): string -> seq<Detection> {
    (line: string) => LineRecords(lines, line)
  }

  /** The records of the lines `ls`, line by line, each read in the context of `lines`. */
  function LinesRecords(lines: seq<string>, ls: seq<string>): seq<Detection> {
    Flatten(ls, LineRecorder(lines))
  }

  /** One more line adds that line's records at the end. */
  lemma LinesRecordsStep(lines: seq<string>, ls: seq<string>, i: nat)
    requires i < |ls|
    ensures LinesRecords(lines, ls[..i + 1]) == LinesRecords(lines, ls[..i]) + LineRecords(lines, ls[i])
  {
    assert ls[..i + 1] == ls[..i] + [ls[i]];
    FlattenSnoc(ls[..i], LineRecorder(lines), ls[i]);
  }

  /** What `extractPaymentInfo` returns for an OCR text. */
  function PaymentInfo(ocrText: string): seq<Detection> {
    var lines := SplitLines(ocrText);
    LinesRecords(lines, lines)
  }

  /** One pass of `extractPaymentInfo` with pattern `p` over `line`: its global
      matches, each matched again and its amount read, with the item inferred by
      methods 1 to 3 in turn. */
  method ScanSymbol(lines: seq<string>, line: string, p: SymbolPattern) returns (found: seq<Detection>)
    requires |p.symbol| > 0
    ensures found == PatternLineRecords(lines, line, p)
  {
    var matches := PatternHits(line, p);
    var item := ItemOf(lines, line, p.symbol);
    found := ScanHits(line, p, matches, Trim(line), item);
  }

  /** The loop over the matches `hs` of pattern `p`: a record for each match whose
      amount is a number. */
  method ScanHits(line: string, p: SymbolPattern, hs: seq<Hit>, context: string, item: Option<string>) returns (found: seq<Detection>)
    requires forall k :: 0 <= k < |hs| ==> hs[k].start < hs[k].numStart < hs[k].numEnd <= |line|
    ensures found == PatternRecords(line, p, hs, context, item)
  {
    found := [];
    for t := 0 to |hs|
      invariant found == PatternRecords(line, p, hs[..t], context, item)
    {
      var amount := ReadHit(line, p.symbol, hs[t]);
      PatternRecordsStep(line, p, hs, t, context, item);
      if amount.Some? {
        found := found + [Detection(amount.value, p.currency, context, item)];
      }
    }
    assert hs[..|hs|] == hs;
  }

  /** `match.match(regex)` on the text of a hit, and the amount of its capture. */
  method ReadHit(line: string, symbol: string, h: Hit) returns (amount: Option<real>)
    requires h.start < h.numStart < h.numEnd <= |line|
    ensures amount == HitAmount(line, symbol, h)
  {
    var match_ := line[h.start..h.numEnd];
    var amountMatch := NextHit(match_, symbol, 0);
    amount := None;
    if amountMatch.Some? {
      var g := amountMatch.value;
      amount := OcrAmount(match_[g.numStart..g.numEnd]);
    }
  }

  /** Methods 1 to 3 of the item inference, each tried while no item is known. */
  method ItemOf(lines: seq<string>, line: string, symbol: string) returns (item: Option<string>)
    ensures item == InferItem(lines, line, symbol)
  {
    var context := Trim(line);
    item := BeforeSymbolItem(context, symbol);
    if item.None? {
      item := PreviousLineItem(lines, line);
    }
    if item.None? {
      item := QuantityItem(context);
    }
  }

  /** The code pass of `extractPaymentInfo` over `line`: one record at most for each
      registered code, in registry order. */
  method ScanCodes(line: string) returns (found: seq<Detection>)
    ensures found == CodeRecords(line, SupportedCurrencies)
  {
    found := [];
    for c := 0 to |SupportedCurrencies|
      invariant found == CodeRecords(line, SupportedCurrencies[..c])
    {
      var record := CodeRecord(line, SupportedCurrencies[c]);
      CodeRecordsStep(line, SupportedCurrencies, c);
      if record.Some? {
        found := found + [record.value];
      }
    }
    assert SupportedCurrencies[..|SupportedCurrencies|] == SupportedCurrencies;
  }

  /** The body of `extractPaymentInfo`'s line loop: the twelve symbol patterns in
      turn, then the registered codes. */
  method ScanLine(lines: seq<string>, line: string) returns (found: seq<Detection>)
    ensures found == LineRecords(lines, line)
  {
    SymbolsNonEmpty();
    found := [];
    for k := 0 to |SymbolPatterns|
      invariant found == SymbolRecords(lines, line, SymbolPatterns[..k])
    {
      var records := ScanSymbol(lines, line, SymbolPatterns[k]);
      SymbolRecordsStep(lines, line, SymbolPatterns, k);
      found := found + records;
    }
    assert SymbolPatterns[..|SymbolPatterns|] == SymbolPatterns;
    var records := ScanCodes(line);
    found := found + records;
  }

  /** `extractPaymentInfo`: every line is scanned with the twelve symbol patterns in
      turn, then with the registered codes; the records are kept in that order. */
  method ExtractPaymentInfo(ocrText: string) returns (results: seq<Detection>)
    ensures results == PaymentInfo(ocrText)
  {
    var lines := SplitLines(ocrText);
    results := [];
    for i := 0 to |lines|
      invariant results == LinesRecords(lines, lines[..i])
    {
      var found := ScanLine(lines, lines[i]);
      LinesRecordsStep(lines, lines, i);
      results := results + found;
    }
    assert lines[..|lines|] == lines;
  }
}
