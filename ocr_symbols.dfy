/** The symbol scan of `extractPaymentInfo` (src/lib/ocrProcessor.ts:41-74): twelve
    patterns `SYMBOL\s*(\d+(?:[.,]\d+)?)`, each run with the `g` flag over a line, and
    the amount read from each capture after its first ',' becomes '.'. */
module OcrSymbols {
  import opened Wrappers
  import opened Seqs
  import opened JsString
  import opened Decimal
  import opened PaymentRecords
  import ChatAmount

  /** One entry of the local `currencyPatterns` table. The regex of every entry
      matches exactly the text of its symbol (its `$` are escaped), with no `i` flag. */
  datatype SymbolPattern = SymbolPattern(currency: Currency, symbol: string)

  /** The table, in source order. JPY and CNY share the yen sign. */
  const SymbolPatterns: seq<SymbolPattern> := [
    SymbolPattern(ZAR, "R"),
    SymbolPattern(USD, "$"),
    SymbolPattern(EUR, "\U{20AC}"),
    SymbolPattern(GBP, "\U{00A3}"),
    SymbolPattern(INR, "\U{20B9}"),
    SymbolPattern(AUD, "A$"),
    SymbolPattern(BRL, "R$"),
    SymbolPattern(JPY, "\U{00A5}"),
    SymbolPattern(CNY, "\U{00A5}"),
    SymbolPattern(NGN, "\U{20A6}"),
    SymbolPattern(RUB, "\U{20BD}"),
    SymbolPattern(SAR, "SR")
  ]

  /** Every symbol is non-empty, so every match consumes at least one character. */
  lemma SymbolsNonEmpty()
    ensures forall k :: 0 <= k < |SymbolPatterns| ==> |SymbolPatterns[k].symbol| > 0
  {
  }

  /** Greedy `\d+(?:[.,]\d+)?` from a digit at `j`. Nothing follows the group in the
      pattern, so the greedy choice is the one kept. */
  function NumeralEnd(s: string, j: nat): (e: nat)
    requires j < |s| && IsDigit(s[j])
    ensures j < e <= |s|
  {
    var d := DigitsEnd(s, j);
    if d + 1 < |s| && ChatAmount.IsDecimalSeparator(s[d]) && IsDigit(s[d + 1]) then DigitsEnd(s, d + 1) else d
  }

  /** Where the numeral starts when a match of `symbol\s*\d` begins at `i`. `\s*` is
      greedy, and giving white space back cannot help, since a digit must follow. */
  function NumeralStart(s: string, symbol: string, i: nat): (r: Option<nat>)
    ensures r.Some? <==> OccursAt(s, i, symbol) && SkipSpaces(s, i + |symbol|) < |s| && IsDigit(s[SkipSpaces(s, i + |symbol|)])
    ensures r.Some? ==> r.value == SkipSpaces(s, i + |symbol|)
  {
    if OccursAt(s, i, symbol) then
      var j := SkipSpaces(s, i + |symbol|);
      if j < |s| && IsDigit(s[j]) then Some(j) else None
    else None
  }

  /** One match of the global scan: where it starts and where its numeral lies. */
  datatype Hit = Hit(start: nat, numStart: nat, numEnd: nat)

  predicate IsHitAt(s: string, symbol: string, h: Hit) {
    && NumeralStart(s, symbol, h.start) == Some(h.numStart)
    && h.numEnd == NumeralEnd(s, h.numStart)
  }

  /** The leftmost match at or after `from`. */
  function NextHit(s: string, symbol: string, from: nat): (r: Option<Hit>)
    ensures r.Some? ==> from <= r.value.start && IsHitAt(s, symbol, r.value)
    ensures r.Some? ==> forall i :: from <= i < r.value.start ==> NumeralStart(s, symbol, i).None?
    ensures r.None? ==> forall i :: from <= i ==> NumeralStart(s, symbol, i).None?
    decreases |s| - from
  {
    if from >= |s| then None
    else match NumeralStart(s, symbol, from)
      case Some(j) => Some(Hit(from, j, NumeralEnd(s, j)))
      case None => NextHit(s, symbol, from + 1)
  }

  /** A match that starts at `from` is the next one. */
  lemma NextHitHere(s: string, symbol: string, from: nat, j: nat)
    requires from < |s| && NumeralStart(s, symbol, from) == Some(j)
    ensures j < |s| && IsDigit(s[j])
    ensures NextHit(s, symbol, from) == Some(Hit(from, j, NumeralEnd(s, j)))
  {
  }

  /** `line.match(new RegExp(regex, 'g'))` from `from` on: each match is searched for
      where the previous one ended. */
  function Hits(s: string, symbol: string, from: nat): (hs: seq<Hit>)
    requires |symbol| > 0
    ensures forall k :: 0 <= k < |hs| ==> from <= hs[k].start && IsHitAt(s, symbol, hs[k])
    ensures forall k :: 0 <= k < |hs| ==> hs[k].start < hs[k].numStart < hs[k].numEnd <= |s|
    ensures forall k :: 0 < k < |hs| ==> hs[k - 1].numEnd <= hs[k].start
    decreases |s| - from
  {
    match NextHit(s, symbol, from)
    case None => []
    case Some(h) =>
      var rest := Hits(s, symbol, h.numEnd);
      ConsHits(s, symbol, from, h, rest);
      [h] + rest
  }

  /** A hit followed by the hits after its end keeps the order of `Hits`. */
  lemma ConsHits(s: string, symbol: string, from: nat, h: Hit, rest: seq<Hit>)
    requires |symbol| > 0 && from <= h.start && IsHitAt(s, symbol, h)
    requires forall k :: 0 <= k < |rest| ==> h.numEnd <= rest[k].start && IsHitAt(s, symbol, rest[k])
    requires forall k :: 0 <= k < |rest| ==> rest[k].start < rest[k].numStart < rest[k].numEnd <= |s|
    requires forall k :: 0 < k < |rest| ==> rest[k - 1].numEnd <= rest[k].start
    ensures forall k :: 0 <= k < |[h] + rest| ==> from <= ([h] + rest)[k].start && IsHitAt(s, symbol, ([h] + rest)[k])
    ensures forall k :: 0 <= k < |[h] + rest| ==> ([h] + rest)[k].start < ([h] + rest)[k].numStart < ([h] + rest)[k].numEnd <= |s|
    ensures forall k :: 0 < k < |[h] + rest| ==> ([h] + rest)[k - 1].numEnd <= ([h] + rest)[k].start
  {
    HitBounds(s, symbol, h);
    ConsHitsEach(s, symbol, from, h, rest, [h] + rest);
    ConsHitsOrdered(h, rest, [h] + rest);
  }

  lemma ConsHitsEach(s: string, symbol: string, from: nat, h: Hit, rest: seq<Hit>, hs: seq<Hit>)
    requires hs == [h] + rest
    requires from <= h.start && IsHitAt(s, symbol, h) && h.start < h.numStart < h.numEnd <= |s|
    requires forall k :: 0 <= k < |rest| ==> h.numEnd <= rest[k].start && IsHitAt(s, symbol, rest[k])
    requires forall k :: 0 <= k < |rest| ==> rest[k].start < rest[k].numStart < rest[k].numEnd <= |s|
    ensures forall k :: 0 <= k < |hs| ==> from <= hs[k].start && IsHitAt(s, symbol, hs[k])
    ensures forall k :: 0 <= k < |hs| ==> hs[k].start < hs[k].numStart < hs[k].numEnd <= |s|
  {
    forall k | 0 < k < |hs|
      ensures hs[k] == rest[k - 1]
    {
    }
  }

  lemma ConsHitsOrdered(h: Hit, rest: seq<Hit>, hs: seq<Hit>)
    requires hs == [h] + rest
    requires forall k :: 0 <= k < |rest| ==> h.numEnd <= rest[k].start
    requires forall k :: 0 < k < |rest| ==> rest[k - 1].numEnd <= rest[k].start
    ensures forall k :: 0 < k < |hs| ==> hs[k - 1].numEnd <= hs[k].start
  {
    forall k | 0 < k < |hs|
      ensures hs[k - 1].numEnd <= hs[k].start
    {
      assert hs[k] == rest[k - 1];
      if k > 1 {
        assert hs[k - 1] == rest[k - 2];
      }
    }
  }

  /** A match covers its symbol and at least one digit. */
  lemma HitBounds(s: string, symbol: string, h: Hit)
    requires |symbol| > 0 && IsHitAt(s, symbol, h)
    ensures h.start < h.numStart < h.numEnd <= |s|
  {
    assert h.numStart == SkipSpaces(s, h.start + |symbol|);
  }

  /** A match start that lies inside the match before it or at a hit. */
  predicate CoveredBy(hs: seq<Hit>, i: nat) {
    exists k :: 0 <= k < |hs| && hs[k].start <= i < hs[k].numEnd
  }

  /** The global scan misses no match: every index where the pattern matches is the
      start of a hit or lies within one (the engine resumes after each match). */
  lemma {:induction false} HitsCoverEveryMatch(s: string, symbol: string, from: nat, i: nat)
    requires |symbol| > 0 && from <= i && NumeralStart(s, symbol, i).Some?
    ensures CoveredBy(Hits(s, symbol, from), i)
    decreases |s| - from
  {
    var hs := Hits(s, symbol, from);
    match NextHit(s, symbol, from)
    case None =>
    case Some(h) =>
      assert hs[0] == h;
      if i >= h.numEnd {
        HitsCoverEveryMatch(s, symbol, h.numEnd, i);
        var rest := Hits(s, symbol, h.numEnd);
        var k :| 0 <= k < |rest| && rest[k].start <= i < rest[k].numEnd;
        assert hs[k + 1] == rest[k];
      }
  }

  /** `amountMatch[1].replace(',', '.')` read by `parseFloat`. */
  function OcrAmount(numeral: string): Option<real> {
    ParseFloat(ReplaceFirst(numeral, ',', '.'))
  }

  /** The captured numeral is a run of digits, or two runs around one '.' or ',';
      it reads as exactly that decimal, so the amount is never NaN nor negative. */
  lemma OcrNumeral(s: string, j: nat, d: nat, e: nat)
    requires j < |s| && IsDigit(s[j])
    requires d == DigitsEnd(s, j) && e == NumeralEnd(s, j)
    ensures e == d ==> OcrAmount(s[j..e]) == Some(DigitsValue(s[j..d]) as real)
    ensures e > d ==> d + 1 < e && ChatAmount.IsDecimalSeparator(s[d])
    ensures e > d ==> OcrAmount(s[j..e]) == Some(DecimalValue(s[j..d], s[d + 1..e]))
  {
    var intPart := s[j..d];
    assert AllDigits(intPart) by {
      forall k | 0 <= k < |intPart| ensures IsDigit(intPart[k]) { assert intPart[k] == s[j + k]; }
    }
    if e == d {
      OcrWholeNumeral(intPart);
    } else {
      var frac := s[d + 1..e];
      assert AllDigits(frac) by {
        forall k | 0 <= k < |frac| ensures IsDigit(frac[k]) { assert frac[k] == s[d + 1 + k]; }
      }
      SliceAround(s, j, d, e);
      OcrFractionNumeral(s[j..e], intPart, s[d], frac);
    }
  }

  lemma SliceAround(s: string, j: nat, d: nat, e: nat)
    requires j <= d < e <= |s|
    ensures s[j..e] == s[j..d] + [s[d]] + s[d + 1..e]
  {
  }

  /** A run of digits reads as its value. */
  lemma OcrWholeNumeral(n: string)
    requires |n| > 0 && AllDigits(n)
    ensures OcrAmount(n) == Some(DigitsValue(n) as real)
  {
    assert ',' !in n;
    NoCommaUnchanged(n);
    assert n + [] == n;
    ParseFloatStopsAfterInteger(n, []);
  }

  /** Two runs of digits around one separator read as that decimal. */
  lemma OcrFractionNumeral(n: string, intPart: string, sep: char, frac: string)
    requires |intPart| > 0 && AllDigits(intPart) && AllDigits(frac) && ChatAmount.IsDecimalSeparator(sep)
    requires n == intPart + [sep] + frac
    ensures OcrAmount(n) == Some(DecimalValue(intPart, frac))
  {
    assert ',' !in intPart && ',' !in frac;
    OneCommaReplaced(intPart, sep, frac);
    assert intPart + "." + frac == intPart + "." + frac + [];
    ParseFloatStopsAfterFraction(intPart, frac, []);
  }

  lemma NoCommaUnchanged(n: string)
    requires ',' !in n
    ensures ReplaceFirst(n, ',', '.') == n
  {
  }

  lemma OneCommaReplaced(intPart: string, sep: char, frac: string)
    requires ',' !in intPart && ',' !in frac && ChatAmount.IsDecimalSeparator(sep)
    ensures ReplaceFirst(intPart + [sep] + frac, ',', '.') == intPart + "." + frac
  {
    var n := intPart + [sep] + frac;
    if sep == ',' {
      IndexOfAt(n, ',', |intPart|);
      assert n[|intPart| := '.'] == intPart + "." + frac;
    } else {
      assert ',' !in n;
    }
  }
}
