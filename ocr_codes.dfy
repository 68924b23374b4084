/** The currency-code scan of `extractPaymentInfo` (src/lib/ocrProcessor.ts:140-184):
    for each of the six registered codes, `\bCODE\s+(\d+(?:[.,]\d+)?)\b` and, when that
    fails, `\b(\d+(?:[.,]\d+)?)\s+CODE\b`, both case-insensitive, run on the untrimmed
    line; at most one record per code. */
module OcrCodes {
  import opened Wrappers
  import opened Seqs
  import opened JsString
  import opened Decimal
  import opened Scan
  import opened PaymentRecords
  import opened OcrSymbols
  import ChatAmount

  /** Whether a fraction `[.,]\d+` follows the digit run that ends at `d`. */
  predicate HasFraction(s: string, d: nat) {
    d + 1 < |s| && ChatAmount.IsDecimalSeparator(s[d]) && IsDigit(s[d + 1])
  }

  /** The ends `\d+(?:[.,]\d+)?` can stop at from a digit at `j`, in the order a
      backtracking engine tries them: the fraction with all its digits, then with fewer,
      then no fraction, then fewer integer digits. */
  function NumeralEnds(s: string, j: nat): (es: seq<nat>)
    requires j < |s| && IsDigit(s[j])
    ensures |es| > 0 && es[0] == NumeralEnd(s, j)
    ensures forall k :: 0 <= k < |es| ==> j < es[k] <= |s|
  {
    var d := DigitsEnd(s, j);
    var fraction := if HasFraction(s, d) then Descending(DigitsEnd(s, d + 1), d + 2) else [];
    fraction + Descending(d, j + 1)
  }

  /** Every candidate end delimits a numeral `parseFloat` reads. */
  lemma CandidateAmount(s: string, j: nat, e: nat)
    requires j < |s| && IsDigit(s[j]) && e in NumeralEnds(s, j)
    ensures OcrAmount(s[j..e]).Some? && OcrAmount(s[j..e]).value >= 0.0
  {
    var d := DigitsEnd(s, j);
    if e <= d {
      assert AllDigits(s[j..e]) by {
        forall k | 0 <= k < e - j ensures IsDigit(s[j..e][k]) { assert s[j..e][k] == s[j + k]; }
      }
      OcrWholeNumeral(s[j..e]);
    } else {
      var frac := s[d + 1..e];
      assert HasFraction(s, d) && d + 2 <= e <= DigitsEnd(s, d + 1);
      assert AllDigits(s[j..d]) by {
        forall k | 0 <= k < d - j ensures IsDigit(s[j..d][k]) { assert s[j..d][k] == s[j + k]; }
      }
      assert AllDigits(frac) by {
        forall k | 0 <= k < |frac| ensures IsDigit(frac[k]) { assert frac[k] == s[d + 1 + k]; }
      }
      SliceAround(s, j, d, e);
      OcrFractionNumeral(s[j..e], s[j..d], s[d], frac);
    }
  }

  /** Followed by `\b`, the numeral keeps its greedy end when no word character follows
      it; otherwise the engine backtracks to the integer part when a fraction was read
      (the separator is no word character), and fails when there is none. So
      `USD 1.5x` reads 1. */
  lemma NumeralBeforeBoundary(s: string, j: nat)
    requires j < |s| && IsDigit(s[j])
    ensures var e := NumeralEnd(s, j); var d := DigitsEnd(s, j);
      FirstWhere(NumeralEnds(s, j), (e: nat) => e <= |s| && WordBoundary(s, e))
        == if e == |s| || !IsWordChar(s[e]) then Some(e)
           else if HasFraction(s, d) then Some(d)
           else None
  {
    var d := DigitsEnd(s, j);
    var e0 := NumeralEnd(s, j);
    var ok := (e: nat) => e <= |s| && WordBoundary(s, e);
    var es := NumeralEnds(s, j);
    var fraction := if HasFraction(s, d) then Descending(DigitsEnd(s, d + 1), d + 2) else [];
    assert es == fraction + Descending(d, j + 1);
    assert IsDigit(s[e0 - 1]);
    if e0 == |s| || !IsWordChar(s[e0]) {
      FirstWhereAt(es, ok, 0);
    } else if HasFraction(s, d) {
      var m := |fraction|;
      forall k | 0 <= k < m ensures !ok(es[k]) {
        if k > 0 {
          BetweenDigits(s, es[k]);
        }
      }
      assert es[m] == d;
      FirstWhereAt(es, ok, m);
    } else {
      forall k | 0 <= k < |es| ensures !ok(es[k]) {
        if k > 0 {
          BetweenDigits(s, es[k]);
        }
      }
    }
  }

  /** No word boundary falls between two digits. */
  lemma BetweenDigits(s: string, f: nat)
    requires 0 < f < |s| && IsDigit(s[f - 1]) && IsDigit(s[f])
    ensures !WordBoundary(s, f)
  {
  }

  /** The first candidate accepted is the one at `k` when none before it is. */
  lemma FirstWhereAt(xs: seq<nat>, ok: nat -> bool, k: nat)
    requires k < |xs| && ok(xs[k]) && forall j :: 0 <= j < k ==> !ok(xs[j])
    ensures FirstWhere(xs, ok) == Some(xs[k])
  {
    var r := FirstWhere(xs, ok);
    var i :| 0 <= i < |xs| && xs[i] == r.value && forall j :: 0 <= j < i ==> !ok(xs[j]);
    assert !(i < k) && !(k < i);
  }

  /** `\bCODE\s+(\d+(?:[.,]\d+)?)\b` tried at `p`: where the captured numeral starts
      and ends. `\s+` before a digit can only take the whole run of white space. */
  function CodeBeforeAt(s: string, code: string, p: nat): (r: Option<(nat, nat)>)
    ensures r.Some? ==> r.value.0 < r.value.1 <= |s| && IsDigit(s[r.value.0])
    ensures r.Some? ==> r.value.1 in NumeralEnds(s, r.value.0)
  {
    if p + |code| <= |s| && WordBoundary(s, p) && OccursAtIgnoringCase(s, p, code) then
      var b := SkipSpaces(s, p + |code|);
      if b > p + |code| && b < |s| && IsDigit(s[b]) then
        match FirstWhere(NumeralEnds(s, b), (e: nat) => e <= |s| && WordBoundary(s, e))
        case None => None
        case Some(e) => Some((b, e))
      else None
    else None
  }

  /** `\s+CODE\b` at `e`. The code starts with a letter, so `\s+` takes the whole run. */
  predicate CodeFollowsAt(s: string, code: string, e: nat)
    requires e <= |s|
  {
    var b := SkipSpaces(s, e);
    b > e && b + |code| <= |s| && OccursAtIgnoringCase(s, b, code) && WordBoundary(s, b + |code|)
  }

  /** `\b(\d+(?:[.,]\d+)?)\s+CODE\b` tried at `p`: where the captured numeral starts and
      ends. */
  function CodeAfterAt(s: string, code: string, p: nat): (r: Option<(nat, nat)>)
    ensures r.Some? ==> r.value.0 < r.value.1 <= |s| && IsDigit(s[r.value.0])
    ensures r.Some? ==> r.value.1 in NumeralEnds(s, r.value.0)
  {
    if p < |s| && IsDigit(s[p]) && WordBoundary(s, p) then
      match FirstWhere(NumeralEnds(s, p), (e: nat) => e <= |s| && CodeFollowsAt(s, code, e))
      case None => None
      case Some(e) => Some((p, e))
    else None
  }

  /** Every candidate end but the greedy one stops before a digit or before the
      decimal separator, never before white space. */
  lemma NumeralEndsInside(s: string, j: nat, k: nat)
    requires j < |s| && IsDigit(s[j]) && 0 < k < |NumeralEnds(s, j)|
    ensures NumeralEnds(s, j)[k] < |s|
    ensures IsDigit(s[NumeralEnds(s, j)[k]]) || ChatAmount.IsDecimalSeparator(s[NumeralEnds(s, j)[k]])
  {
    var d := DigitsEnd(s, j);
    var fraction := if HasFraction(s, d) then Descending(DigitsEnd(s, d + 1), d + 2) else [];
    var es := NumeralEnds(s, j);
    assert es == fraction + Descending(d, j + 1);
    if k < |fraction| {
      assert es[k] == DigitsEnd(s, d + 1) - k;
    } else {
      assert es[k] == d - (k - |fraction|);
    }
  }

  /** `\bCODE\s+(\d+(?:[.,]\d+)?)\b` matches at `p` exactly when the code starts there
      on a word boundary, in any case, white space follows it and then a digit, and the
      numeral there ends a word or has a fraction to give back; the capture is the
      whole numeral when it ends a word, and its integer part otherwise. */
  lemma CodeBeforeAtExactly(s: string, code: string, p: nat)
    ensures CodeBeforeAt(s, code, p).Some? <==>
      && p + |code| <= |s| && WordBoundary(s, p) && OccursAtIgnoringCase(s, p, code)
      && SkipSpaces(s, p + |code|) > p + |code| && SkipSpaces(s, p + |code|) < |s|
      && IsDigit(s[SkipSpaces(s, p + |code|)])
      && var b := SkipSpaces(s, p + |code|);
         (NumeralEnd(s, b) == |s| || !IsWordChar(s[NumeralEnd(s, b)]) || HasFraction(s, DigitsEnd(s, b)))
    ensures CodeBeforeAt(s, code, p).Some? ==>
      var b := SkipSpaces(s, p + |code|); var e := NumeralEnd(s, b);
      CodeBeforeAt(s, code, p) == Some((b, if e == |s| || !IsWordChar(s[e]) then e else DigitsEnd(s, b)))
  {
    if p + |code| <= |s| && WordBoundary(s, p) && OccursAtIgnoringCase(s, p, code) {
      var b := SkipSpaces(s, p + |code|);
      if b > p + |code| && b < |s| && IsDigit(s[b]) {
        NumeralBeforeBoundary(s, b);
      }
    }
  }

  /** `\b(\d+(?:[.,]\d+)?)\s+CODE\b` matches at `p` exactly when a digit starts a word
      there and white space and the code, ending a word, follow the whole numeral: no
      shorter numeral is followed by white space. */
  lemma CodeAfterAtExactly(s: string, code: string, p: nat)
    ensures CodeAfterAt(s, code, p).Some? <==>
      p < |s| && IsDigit(s[p]) && WordBoundary(s, p) && CodeFollowsAt(s, code, NumeralEnd(s, p))
    ensures CodeAfterAt(s, code, p).Some? ==> CodeAfterAt(s, code, p) == Some((p, NumeralEnd(s, p)))
  {
    if p < |s| && IsDigit(s[p]) && WordBoundary(s, p) {
      var es := NumeralEnds(s, p);
      var ok := (e: nat) => e <= |s| && CodeFollowsAt(s, code, e);
      if ok(es[0]) {
        FirstWhereAt(es, ok, 0);
      } else {
        forall k | 0 <= k < |es| ensures !ok(es[k]) {
          if k > 0 {
            NumeralEndsInside(s, p, k);
            assert SkipSpaces(s, es[k]) == es[k];
          }
        }
      }
    }
  }

  /** The numeral the code scan reads, and whether it came from `CODE n` (which is tried
      first) rather than from `n CODE`. */
  function CodeMatch(line: string, code: string): (r: Option<(bool, nat, nat)>)
    ensures r.Some? ==> r.value.1 < r.value.2 <= |line| && IsDigit(line[r.value.1])
    ensures r.Some? ==> r.value.2 in NumeralEnds(line, r.value.1)
  {
    match Leftmost(|line|, 0, p => CodeBeforeAt(line, code, p))
    case Some((_, (b, e))) => Some((true, b, e))
    case None =>
      match Leftmost(|line|, 0, p => CodeAfterAt(line, code, p))
      case Some((_, (b, e))) => Some((false, b, e))
      case None => None
  }

  /** The scan reads `CODE n` exactly when that form matches somewhere, and then reads
      the numeral of its leftmost match. */
  lemma CodeMatchPrefersBefore(line: string, code: string)
    ensures var r := CodeMatch(line, code);
      (r.Some? && r.value.0) <==> exists p :: 0 <= p < |line| && CodeBeforeAt(line, code, p).Some?
    ensures var r := CodeMatch(line, code);
      r.Some? && r.value.0 ==>
        exists p :: 0 <= p < |line| && CodeBeforeAt(line, code, p) == Some((r.value.1, r.value.2))
          && forall q :: 0 <= q < p ==> CodeBeforeAt(line, code, q).None?
  {
    var before := (p: nat) => CodeBeforeAt(line, code, p);
    var mb := Leftmost(|line|, 0, before);
    if mb.Some? {
      var p := mb.value.0;
      assert CodeBeforeAt(line, code, p) == Some(mb.value.1) by { assert before(p) == Some(mb.value.1); }
      forall q | 0 <= q < p ensures CodeBeforeAt(line, code, q).None? { assert before(q).None?; }
    } else {
      forall p | 0 <= p < |line| ensures CodeBeforeAt(line, code, p).None? { assert before(p).None?; }
    }
  }

  /** Conversely, a leftmost `CODE n` match at `p` is the one the scan reads. */
  lemma CodeMatchReadsLeftmostBefore(line: string, code: string, p: nat)
    requires p < |line| && CodeBeforeAt(line, code, p).Some?
    requires forall q :: 0 <= q < p ==> CodeBeforeAt(line, code, q).None?
    ensures var (b, e) := CodeBeforeAt(line, code, p).value; CodeMatch(line, code) == Some((true, b, e))
  {
    var before := (q: nat) => CodeBeforeAt(line, code, q);
    assert before(p).Some?;
    var mb := Leftmost(|line|, 0, before);
    assert mb.Some?;
    var p' := mb.value.0;
    assert before(p') == Some(mb.value.1);
    assert !(p' < p);
    assert !(p < p') by { assert before(p).Some?; }
  }

  /** Only when `CODE n` matches nowhere does the scan read `n CODE`, from its leftmost
      match; it reads nothing exactly when neither form matches anywhere. */
  lemma CodeMatchFallsBackToAfter(line: string, code: string)
    ensures var r := CodeMatch(line, code);
      r.Some? && !r.value.0 ==>
        && (forall p :: 0 <= p < |line| ==> CodeBeforeAt(line, code, p).None?)
        && (exists p :: 0 <= p < |line| && CodeAfterAt(line, code, p) == Some((r.value.1, r.value.2))
              && forall q :: 0 <= q < p ==> CodeAfterAt(line, code, q).None?)
    ensures CodeMatch(line, code).None? <==>
      forall p :: 0 <= p < |line| ==> CodeBeforeAt(line, code, p).None? && CodeAfterAt(line, code, p).None?
  {
    CodeMatchPrefersBefore(line, code);
    var after := (p: nat) => CodeAfterAt(line, code, p);
    var ma := Leftmost(|line|, 0, after);
    if ma.Some? {
      var p := ma.value.0;
      assert CodeAfterAt(line, code, p) == Some(ma.value.1) by { assert after(p) == Some(ma.value.1); }
      forall q | 0 <= q < p ensures CodeAfterAt(line, code, q).None? { assert after(q).None?; }
    } else {
      forall p | 0 <= p < |line| ensures CodeAfterAt(line, code, p).None? { assert after(p).None?; }
    }
  }

  /** `\s*CODE\s+\d` at `q`, under the `i` flag. */
  predicate CodeThenDigitAt(s: string, code: string, q: nat)
    requires q <= |s|
  {
    var a := SkipSpaces(s, q);
    a + |code| <= |s| && OccursAtIgnoringCase(s, a, code)
    && SkipSpaces(s, a + |code|) > a + |code| && SkipSpaces(s, a + |code|) < |s|
    && IsDigit(s[SkipSpaces(s, a + |code|)])
  }

  /** The rest of `(.+?)\s*CODE\s+\d` after the capture. */
  function CodeBeforeRest(line: string, code: string): nat -> bool {
    (q: nat) => q <= |line| && CodeThenDigitAt(line, code, q)
  }

  /** Where the leftmost match of `(.+?)\s*CODE\s+\d` starts, and where its shortest
      capture ends: the code, white space and a digit follow the capture, it is the
      shortest from its start that they follow, and it holds no line terminator. No
      earlier start matches, and there is no match exactly when no start matches. */
  function CodeBeforeCapture(line: string, code: string): (r: Option<(nat, nat)>)
    ensures r.Some? ==> LazyMatchAt(line, r.value.0, CodeBeforeRest(line, code)) == Some(r.value.1)
    ensures r.Some? ==> forall p :: 0 <= p < r.value.0 ==> LazyMatchAt(line, p, CodeBeforeRest(line, code)).None?
    ensures r.None? <==> forall p :: 0 <= p < |line| ==> LazyMatchAt(line, p, CodeBeforeRest(line, code)).None?
    ensures r.Some? ==> r.value.0 < r.value.1 <= |line| && CodeThenDigitAt(line, code, r.value.1)
    ensures r.Some? ==> forall q :: r.value.0 < q < r.value.1 ==> !CodeThenDigitAt(line, code, q)
    ensures r.Some? ==> forall k :: r.value.0 <= k < r.value.1 ==> !IsLineTerminator(line[k])
  {
    var rest := CodeBeforeRest(line, code);
    var f := (p: nat) => LazyMatchAt(line, p, rest);
    var m := Leftmost(|line|, 0, f);
    if m.None? then
      assert forall p :: 0 <= p < |line| ==> LazyMatchAt(line, p, rest).None? by {
        forall p: nat | p < |line| ensures LazyMatchAt(line, p, rest).None? { assert f(p).None?; }
      }
      None
    else
      var p, q := m.value.0, m.value.1;
      assert LazyMatchAt(line, p, rest) == Some(q) by { assert f(p) == Some(q); }
      assert forall p' :: 0 <= p' < p ==> LazyMatchAt(line, p', rest).None? by {
        forall p': nat | p' < p ensures LazyMatchAt(line, p', rest).None? { assert f(p').None?; }
      }
      assert CodeThenDigitAt(line, code, q) by { assert rest(q); }
      assert forall k :: p < k < q ==> !CodeThenDigitAt(line, code, k) by {
        forall k | p < k < q ensures !CodeThenDigitAt(line, code, k) {
          assert !rest(k);
        }
      }
      Some((p, q))
  }

  /** For `CODE n`: `line.match(new RegExp(`(.+?)\\s*${code}\\s+\\d`, 'i'))`, the capture
      trimmed; it may be empty. */
  function CodeBeforeItem(line: string, code: string): (r: Option<string>)
    ensures CodeBeforeCapture(line, code).None? ==> r.None?
    ensures CodeBeforeCapture(line, code).Some? ==>
      var (p, q) := CodeBeforeCapture(line, code).value; r == Some(Trim(line[p..q]))
    ensures r.Some? ==> Trim(r.value) == r.value
  {
    match CodeBeforeCapture(line, code)
    case None => None
    case Some((p, q)) =>
      TrimIdempotent(line[p..q]);
      Some(Trim(line[p..q]))
  }

  /** When `CODE n` matches at `p` after a non-empty start of the line free of line
      terminators, the text before the code is captured as the item. */
  lemma CodeBeforeItemPresent(line: string, code: string, p: nat)
    requires |code| > 0 && IsAsciiLetter(code[0])
    requires CodeBeforeAt(line, code, p).Some? && 0 < p <= LineEnd(line, 0)
    ensures CodeBeforeItem(line, code).Some?
  {
    assert SameIgnoringCase(line[p], code[0]);
    assert !IsSpace(line[p]);
    assert SkipSpaces(line, p) == p;
    assert CodeThenDigitAt(line, code, p);
    var rest := CodeBeforeRest(line, code);
    var f := q => LazyMatchAt(line, q, rest);
    assert rest(p);
    assert f(0).Some?;
  }

  /** `\s+(.+)` where `\s+` has taken the white space from `c` up to `k`: the first
      start of `(.+)` the engine accepts as `\s+` gives characters back one at a time. */
  function GiveBack(s: string, c: nat, k: nat): (r: Option<nat>)
    requires k <= |s|
    ensures r.Some? ==> c < r.value <= k && r.value < |s| && !IsLineTerminator(s[r.value])
    decreases k
  {
    if k <= c then None
    else if k < |s| && !IsLineTerminator(s[k]) then Some(k)
    else GiveBack(s, c, k - 1)
  }

  /** `\s+CODE\s+(.+)` at `e`: where the captured rest of the line starts. */
  function RestAfterCode(s: string, code: string, e: nat): (r: Option<nat>)
    requires e <= |s|
    ensures r.Some? ==> e < r.value < |s| && !IsLineTerminator(s[r.value])
  {
    var b := SkipSpaces(s, e);
    if b > e && b + |code| <= |s| && OccursAtIgnoringCase(s, b, code) then
      GiveBack(s, b + |code|, SkipSpaces(s, b + |code|))
    else None
  }

  /** `\d+(?:[.,]\d+)?\s+CODE\s+(.+)` tried at `p`: where the capture starts. */
  function CodeAfterItemAt(s: string, code: string, p: nat): (r: Option<nat>)
    ensures r.Some? ==> p < r.value < |s| && IsDigit(s[p]) && !IsLineTerminator(s[r.value])
  {
    if p < |s| && IsDigit(s[p]) then
      match FirstWhere(NumeralEnds(s, p), (e: nat) => e <= |s| && RestAfterCode(s, code, e).Some?)
      case None => None
      case Some(e) => RestAfterCode(s, code, e)
    else None
  }

  /** Where the leftmost match of `\d+(?:[.,]\d+)?\s+CODE\s+(.+)` starts, and where its
      capture starts: on a character that is no line terminator, after the numeral,
      the code and the white space it is given back from. That there is no match
      exactly when no start matches is `CodeAfterCaptureNone`. */
  function CodeAfterCapture(line: string, code: string): (r: Option<(nat, nat)>)
    ensures r.Some? ==> r.value.0 < r.value.1 < |line| && IsDigit(line[r.value.0]) && !IsLineTerminator(line[r.value.1])
    ensures r.Some? ==> CodeAfterItemAt(line, code, r.value.0) == Some(r.value.1)
    ensures r.Some? ==> forall q :: 0 <= q < r.value.0 ==> CodeAfterItemAt(line, code, q).None?
  {
    var f := (p: nat) => CodeAfterItemAt(line, code, p);
    var m := Leftmost(|line|, 0, f);
    if m.None? then None
    else
      var p, k := m.value.0, m.value.1;
      assert CodeAfterItemAt(line, code, p) == Some(k) by { assert f(p) == Some(k); }
      assert forall q :: 0 <= q < p ==> CodeAfterItemAt(line, code, q).None? by {
        forall q | 0 <= q < p ensures CodeAfterItemAt(line, code, q).None? { assert f(q).None?; }
      }
      Some((p, k))
  }

  /** `CodeAfterCapture` finds nothing exactly when `n CODE text` matches at no start. */
  lemma CodeAfterCaptureNone(line: string, code: string)
    ensures CodeAfterCapture(line, code).None? <==>
      forall q :: 0 <= q < |line| ==> CodeAfterItemAt(line, code, q).None?
  {
    var f := (p: nat) => CodeAfterItemAt(line, code, p);
    var m := Leftmost(|line|, 0, f);
    assert CodeAfterCapture(line, code).None? == m.None?;
    if m.None? {
      forall q: nat | q < |line| ensures CodeAfterItemAt(line, code, q).None? { assert f(q).None?; }
    } else {
      assert f(m.value.0).Some?;
    }
  }

  /** For `n CODE`: `line.match(new RegExp(`\\d+(?:[.,]\\d+)?\\s+${code}\\s+(.+)`, 'i'))`,
      the capture, which runs to the end of the line, trimmed. */
  function CodeAfterItem(line: string, code: string): (r: Option<string>)
    ensures CodeAfterCapture(line, code).None? ==> r.None?
    ensures CodeAfterCapture(line, code).Some? ==>
      var k := CodeAfterCapture(line, code).value.1; r == Some(Trim(line[k..LineEnd(line, k)]))
    ensures r.Some? ==> Trim(r.value) == r.value
  {
    match CodeAfterCapture(line, code)
    case None => None
    case Some((_, k)) =>
      TrimIdempotent(line[k..LineEnd(line, k)]);
      Some(Trim(line[k..LineEnd(line, k)]))
  }

  /** The record the code scan makes for currency `c` on `line`, if any. */
  function CodeRecord(line: string, c: Currency): (r: Option<Detection>)
    ensures r.Some? <==> CodeMatch(line, Code(c)).Some?
    ensures r.Some? ==> r.value.currency == c && r.value.amount >= 0.0 && r.value.text == Trim(line)
    ensures r.Some? ==> var m := CodeMatch(line, Code(c)).value;
      && OcrAmount(line[m.1..m.2]) == Some(r.value.amount)
      && r.value.item == (if m.0 then CodeBeforeItem(line, Code(c)) else CodeAfterItem(line, Code(c)))
  {
    var code := Code(c);
    match CodeMatch(line, code)
    case None => None
    case Some((before, b, e)) =>
      CandidateAmount(line, b, e);
      match OcrAmount(line[b..e])
      case None => None
      case Some(a) =>
        var item := if before then CodeBeforeItem(line, code) else CodeAfterItem(line, code);
        Some(Detection(a, c, Trim(line), item))
  }

  /** The code is matched in any case: `usd 100` reads 100 US dollars. */
  lemma CodeRecordLowerCaseExample()
    ensures CodeRecord("usd 100", USD).Some? && CodeRecord("usd 100", USD).value.amount == 100.0
  {
    assert Code(USD) == "USD";
    LowerCaseMatchExample("usd 100");
    AmountExample100();
  }

  lemma AmountExample100()
    ensures OcrAmount("100") == Some(100.0)
  {
    assert "100"[..2] == "10" && "10"[..1] == "1" && "1"[..0] == "";
    OcrWholeNumeral("100");
  }

  lemma LowerCaseMatchExample(s: string)
    requires s == "usd 100"
    ensures CodeMatch(s, "USD") == Some((true, 4, 7)) && s[4..7] == "100"
  {
    LowerCaseBeforeExample(s);
    CodeMatchReadsLeftmostBefore(s, "USD", 0);
    var n := s[4..7];
    assert n[0] == '1' && n[1] == '0' && n[2] == '0';
  }

  lemma LowerCaseBeforeExample(s: string)
    requires s == "usd 100"
    ensures CodeBeforeAt(s, "USD", 0) == Some((4, 7))
  {
    assert OccursAtIgnoringCase(s, 0, "USD") by {
      assert SameIgnoringCase(s[0], 'U') && SameIgnoringCase(s[1], 'S') && SameIgnoringCase(s[2], 'D');
    }
    assert SkipSpaces(s, 4) == 4 && SkipSpaces(s, 3) == 4;
    assert DigitsEnd(s, 7) == 7 && DigitsEnd(s, 4) == 7;
    CodeBeforeAtExactly(s, "USD", 0);
  }

  /** The code must start a word: `xUSD 100` makes no record for USD. */
  lemma CodeRecordWordBoundaryExample()
    ensures CodeRecord("xUSD 100", USD).None?
  {
    var s := "xUSD 100";
    assert Code(USD) == "USD";
    forall p | 0 <= p < |s| ensures CodeBeforeAt(s, "USD", p).None? && CodeAfterAt(s, "USD", p).None? {
      WordBoundaryBeforeExample(s, p);
      WordBoundaryAfterExample(s, p);
    }
    CodeMatchFallsBackToAfter(s, "USD");
  }

  lemma WordBoundaryBeforeExample(s: string, p: nat)
    requires s == "xUSD 100" && p < |s|
    ensures CodeBeforeAt(s, "USD", p).None?
  {
    CodeBeforeAtExactly(s, "USD", p);
    if p == 0 {
      assert !SameIgnoringCase(s[0], 'U');
    } else if p < 4 {
      assert !WordBoundary(s, p);
    } else if p < 6 {
      assert !SameIgnoringCase(s[p], 'U');
    }
  }

  lemma WordBoundaryAfterExample(s: string, p: nat)
    requires s == "xUSD 100" && p < |s|
    ensures CodeAfterAt(s, "USD", p).None?
  {
    CodeAfterAtExactly(s, "USD", p);
    if p == 5 {
      assert DigitsEnd(s, 8) == 8 && DigitsEnd(s, 7) == 8 && DigitsEnd(s, 6) == 8 && DigitsEnd(s, 5) == 8;
      assert SkipSpaces(s, 8) == 8;
    } else if p > 5 {
      assert !WordBoundary(s, p);
    } else {
      assert !IsDigit(s[p]);
    }
  }

  /** A numeral run into a word gives back its fraction: `USD 1.5x` reads 1. */
  lemma CodeRecordBacktrackExample()
    ensures CodeRecord("USD 1.5x", USD).Some? && CodeRecord("USD 1.5x", USD).value.amount == 1.0
  {
    assert Code(USD) == "USD";
    BacktrackMatchExample("USD 1.5x");
    BacktrackNumeralExample("USD 1.5x");
    AmountExample1();
  }

  lemma AmountExample1()
    ensures OcrAmount("1") == Some(1.0)
  {
    assert "1"[..0] == "";
    OcrWholeNumeral("1");
  }

  lemma BacktrackMatchExample(s: string)
    requires s == "USD 1.5x"
    ensures CodeMatch(s, "USD") == Some((true, 4, 5))
  {
    BacktrackBeforeExample(s);
    CodeMatchReadsLeftmostBefore(s, "USD", 0);
  }

  lemma BacktrackNumeralExample(s: string)
    requires s == "USD 1.5x"
    ensures s[4..5] == "1"
  {
    var n := s[4..5];
    assert |n| == 1 && n[0] == '1';
  }

  lemma BacktrackBeforeExample(s: string)
    requires s == "USD 1.5x"
    ensures CodeBeforeAt(s, "USD", 0) == Some((4, 5))
  {
    assert OccursAtIgnoringCase(s, 0, "USD") by {
      assert SameIgnoringCase(s[0], 'U') && SameIgnoringCase(s[1], 'S') && SameIgnoringCase(s[2], 'D');
    }
    assert SkipSpaces(s, 4) == 4 && SkipSpaces(s, 3) == 4;
    assert DigitsEnd(s, 5) == 5 && DigitsEnd(s, 4) == 5;
    assert DigitsEnd(s, 7) == 7 && DigitsEnd(s, 6) == 7;
    assert NumeralEnd(s, 4) == 7 && HasFraction(s, 5);
    CodeBeforeAtExactly(s, "USD", 0);
  }

  /** `CodeRecord` on `line` as a function value, for collecting over the codes. */
  function CodeRecorder(line: string): Currency -> Option<Detection> {
    c => CodeRecord(line, c)
  }

  /** The records of the code scan over the codes `cs`, in that order. */
  function CodeRecords(line: string, cs: seq<Currency>): seq<Detection> {
    Collect(cs, CodeRecorder(line))
  }

  /** Scanning one more code adds its record, if any, at the end. */
  lemma CodeRecordsStep(line: string, cs: seq<Currency>, i: nat)
    requires i < |cs|
    ensures CodeRecords(line, cs[..i + 1])
      == CodeRecords(line, cs[..i]) + (match CodeRecord(line, cs[i]) case None => [] case Some(d) => [d])
  {
    assert cs[..i + 1] == cs[..i] + [cs[i]];
    CollectSnoc(cs[..i], CodeRecorder(line), cs[i]);
  }

  /** Records gathered by a function that labels each with the code it was asked for
      are for the codes asked, and for distinct codes, none twice. */
  lemma {:induction false} LabelledRecordsDistinct(cs: seq<Currency>, f: Currency -> Option<Detection>)
    requires forall i, j :: 0 <= i < j < |cs| ==> cs[i] != cs[j]
    requires forall c :: f(c).Some? ==> f(c).value.currency == c
    ensures forall i :: 0 <= i < |Collect(cs, f)| ==> Collect(cs, f)[i].currency in cs
    ensures forall i, j :: 0 <= i < j < |Collect(cs, f)| ==> Collect(cs, f)[i].currency != Collect(cs, f)[j].currency
  {
    if cs != [] {
      var init := cs[..|cs| - 1];
      var c := cs[|cs| - 1];
      LabelledRecordsDistinct(init, f);
      assert c !in init;
      assert forall k :: 0 <= k < |init| ==> init[k] == cs[k];
      var before := Collect(init, f);
      var rs := Collect(cs, f);
      if f(c).Some? {
        assert rs == before + [f(c).value];
        forall i, j | 0 <= i < j < |rs| ensures rs[i].currency != rs[j].currency {
          assert rs[i] == before[i] && rs[i].currency in init;
          if j < |before| {
            assert rs[j] == before[j];
          }
        }
      } else {
        assert rs == before;
      }
    }
  }

  /** The code scan makes at most one record per code, each for a code scanned. */
  lemma CodeRecordsDistinct(line: string, cs: seq<Currency>)
    requires forall i, j :: 0 <= i < j < |cs| ==> cs[i] != cs[j]
    ensures forall i :: 0 <= i < |CodeRecords(line, cs)| ==> CodeRecords(line, cs)[i].currency in cs
    ensures forall i, j :: 0 <= i < j < |CodeRecords(line, cs)| ==>
      CodeRecords(line, cs)[i].currency != CodeRecords(line, cs)[j].currency
  {
    var f := CodeRecorder(line);
    forall c ensures f(c).Some? ==> f(c).value.currency == c {
      assert f(c) == CodeRecord(line, c);
    }
    LabelledRecordsDistinct(cs, f);
  }

  /** A record is in the code scan exactly when one of the codes scanned makes it. */
  lemma CodeRecordsMembers(line: string, cs: seq<Currency>, d: Detection)
    ensures d in CodeRecords(line, cs) <==> exists k :: 0 <= k < |cs| && CodeRecord(line, cs[k]) == Some(d)
  {
    CollectMembers(cs, CodeRecorder(line), d);
  }
}
