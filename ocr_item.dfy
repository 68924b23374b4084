/** How `extractPaymentInfo` names the item a symbol amount pays for
    (src/lib/ocrProcessor.ts:56-126): the text before the symbol on the same line,
    else the previous line, else a `N x item` pattern. */
module OcrItem {
  import opened Wrappers
  import opened Seqs
  import opened JsString
  import opened Scan
  import opened PaymentRecords
  import opened OcrSymbols

  /** How a character of a currency symbol reads once the symbol is pasted into a
      pattern source unescaped: `$` asserts the end of the input; every other character
      of the twelve symbols is no pattern syntax and stands for itself. */
  datatype Atom = Char(c: char) | EndOfInput

  function SymbolAtoms(symbol: string): (atoms: seq<Atom>)
    ensures |atoms| == |symbol|
    ensures forall k :: 0 <= k < |symbol| ==> atoms[k] == (if symbol[k] == '$' then EndOfInput else Char(symbol[k]))
  {
    seq(|symbol|, k requires 0 <= k < |symbol| => if symbol[k] == '$' then EndOfInput else Char(symbol[k]))
  }

  /** The atoms matched from `i` under the `i` flag: where they end. */
  function MatchAtoms(s: string, i: nat, atoms: seq<Atom>): (r: Option<nat>)
    requires i <= |s|
    ensures r.Some? ==> i <= r.value <= |s|
    decreases |atoms|
  {
    if atoms == [] then Some(i)
    else match atoms[0]
      case EndOfInput => if i == |s| then MatchAtoms(s, i, atoms[1..]) else None
      case Char(c) => if i < |s| && SameIgnoringCase(s[i], c) then MatchAtoms(s, i + 1, atoms[1..]) else None
  }

  /** Once an end-of-input assertion is among the atoms, a match can only end at the
      end of the input. */
  lemma {:induction false} MatchAtomsPastEnd(s: string, i: nat, atoms: seq<Atom>)
    requires i <= |s| && EndOfInput in atoms
    ensures MatchAtoms(s, i, atoms).Some? ==> MatchAtoms(s, i, atoms).value == |s|
    decreases |atoms|
  {
    if atoms[0] != EndOfInput {
      assert EndOfInput in atoms[1..] by {
        var k :| 0 <= k < |atoms| && atoms[k] == EndOfInput;
        assert atoms[1..][k - 1] == EndOfInput;
      }
      if MatchAtoms(s, i, atoms).Some? {
        MatchAtomsPastEnd(s, i + 1, atoms[1..]);
      }
    } else if i == |s| {
      EndAnchoredAtoms(s, atoms[1..]);
    }
  }

  /** From the end of the input the atoms can only stay there. */
  lemma {:induction false} EndAnchoredAtoms(s: string, atoms: seq<Atom>)
    ensures MatchAtoms(s, |s|, atoms).Some? ==> MatchAtoms(s, |s|, atoms).value == |s|
    decreases |atoms|
  {
    if atoms != [] && atoms[0] == EndOfInput {
      EndAnchoredAtoms(s, atoms[1..]);
    }
  }

  /** `\s*SYMBOL\s*\d` at `q`. The symbol starts with a character that is not white
      space, or with an end-of-input assertion, so only the longest run of white space
      can be followed by it; after the symbol a digit must follow the white space. */
  predicate SymbolThenDigitAt(s: string, atoms: seq<Atom>, q: nat)
    requires q <= |s|
  {
    match MatchAtoms(s, SkipSpaces(s, q), atoms)
    case None => false
    case Some(u) => SkipSpaces(s, u) < |s| && IsDigit(s[SkipSpaces(s, u)])
  }

  /** `s.replace(/^[^a-z0-9]+/i, '')`: the leading run of characters that are not ASCII
      letters or digits is removed. */
  function StripLeadingNonAlnum(s: string): (r: string)
    ensures |r| <= |s| && r == s[|s| - |r|..]
    ensures forall k :: 0 <= k < |s| - |r| ==> !IsAsciiAlnum(s[k])
    ensures r == [] || IsAsciiAlnum(r[0])
  {
    if s != [] && !IsAsciiAlnum(s[0]) then
      var r := StripLeadingNonAlnum(s[1..]);
      assert s[1..][|s| - 1 - |r|..] == s[|s| - |r|..];
      assert forall k :: 1 <= k < |s| - |r| ==> s[k] == s[1..][k - 1];
      r
    else s
  }

  /** Trimming a string that starts with a letter or digit keeps that first character. */
  lemma TrimKeepsAlnumStart(s: string)
    requires s != [] && IsAsciiAlnum(s[0])
    ensures Trim(s) != [] && Trim(s)[0] == s[0]
  {
    var i := TrimIsSlice(s);
    assert !IsSpace(s[0]);
    assert i == 0;
  }

  /** `/^\d+$/.test(s)` */
  predicate IsNumber(s: string) { |s| > 0 && AllDigits(s) }

  /** The cleaning of method 1: the capture trimmed, stripped of its leading
      non-alphanumerics and trimmed again; rejected when empty, a number, or shorter
      than two UTF-16 code units. */
  function CleanItem(capture: string): (r: Option<string>)
    ensures var t := Trim(StripLeadingNonAlnum(Trim(capture)));
      r.Some? <==> t != [] && !IsNumber(t) && Utf16Length(t) >= 2
    ensures r.Some? ==> r.value == Trim(StripLeadingNonAlnum(Trim(capture)))
    ensures r.Some? ==> r.value != [] && IsAsciiAlnum(r.value[0]) && !IsNumber(r.value) && Utf16Length(r.value) >= 2
    ensures r.Some? ==> Trim(r.value) == r.value
  {
    var stripped := StripLeadingNonAlnum(Trim(capture));
    var item := Trim(stripped);
    if item == [] || IsNumber(item) || Utf16Length(item) < 2 then None
    else
      TrimKeepsAlnumStart(stripped);
      TrimIdempotent(stripped);
      Some(item)
  }

  /** A capture that is already a clean word, two or more code units long and not a
      number, is kept as it is. */
  lemma CleanItemKeepsWord(w: string)
    requires |w| >= 2 && IsAsciiAlnum(w[0]) && Trim(w) == w && !IsNumber(w)
    ensures CleanItem(w) == Some(w)
  {
    assert StripLeadingNonAlnum(w) == w;
    assert Utf16Length(w) >= |w|;
  }

  /** The rest of method 1's pattern after the capture: `\s*SYMBOL\s*\d`. */
  function BeforeSymbolRest(context: string, symbol: string): nat -> bool {
    (q: nat) => q <= |context| && SymbolThenDigitAt(context, SymbolAtoms(symbol), q)
  }

  /** Method 1: `context.match(new RegExp(`(.+?)\\s*${symbol}\\s*\\d`, 'i'))`, the
      capture cleaned. */
  function BeforeSymbolItem(context: string, symbol: string): (r: Option<string>)
    ensures BeforeSymbolCapture(context, symbol).None? ==> r.None?
    ensures BeforeSymbolCapture(context, symbol).Some? ==>
      var (p, q) := BeforeSymbolCapture(context, symbol).value; r == CleanItem(context[p..q])
    ensures r.Some? ==> r.value != [] && IsAsciiAlnum(r.value[0]) && !IsNumber(r.value) && Utf16Length(r.value) >= 2
    ensures r.Some? ==> Trim(r.value) == r.value
  {
    match BeforeSymbolCapture(context, symbol)
    case None => None
    case Some((p, q)) => CleanItem(context[p..q])
  }

  /** Where the leftmost match of `(.+?)\s*SYMBOL\s*\d` starts, and where its shortest
      capture ends: the symbol and a digit follow the capture, the capture is the
      shortest from its start that they follow, and it holds no line terminator. No
      earlier start matches, and there is no match exactly when no start matches. */
  function BeforeSymbolCapture(context: string, symbol: string): (r: Option<(nat, nat)>)
    ensures r.Some? ==> LazyMatchAt(context, r.value.0, BeforeSymbolRest(context, symbol)) == Some(r.value.1)
    ensures r.Some? ==> forall p :: 0 <= p < r.value.0 ==> LazyMatchAt(context, p, BeforeSymbolRest(context, symbol)).None?
    ensures r.None? <==> forall p :: 0 <= p < |context| ==> LazyMatchAt(context, p, BeforeSymbolRest(context, symbol)).None?
    ensures r.Some? ==> r.value.0 < r.value.1 <= |context|
    ensures r.Some? ==> SymbolThenDigitAt(context, SymbolAtoms(symbol), r.value.1)
    ensures r.Some? ==> forall q :: r.value.0 < q < r.value.1 ==> !SymbolThenDigitAt(context, SymbolAtoms(symbol), q)
    ensures r.Some? ==> forall k :: r.value.0 <= k < r.value.1 ==> !IsLineTerminator(context[k])
  {
    var rest := BeforeSymbolRest(context, symbol);
    var f := (p: nat) => LazyMatchAt(context, p, rest);
    var m := Leftmost(|context|, 0, f);
    if m.None? then
      assert forall p :: 0 <= p < |context| ==> LazyMatchAt(context, p, rest).None? by {
        forall p: nat | p < |context| ensures LazyMatchAt(context, p, rest).None? { assert f(p).None?; }
      }
      None
    else
      var p, q := m.value.0, m.value.1;
      assert LazyMatchAt(context, p, rest) == Some(q) by { assert f(p) == Some(q); }
      assert forall p' :: 0 <= p' < p ==> LazyMatchAt(context, p', rest).None? by {
        forall p': nat | p' < p ensures LazyMatchAt(context, p', rest).None? { assert f(p').None?; }
      }
      var atoms := SymbolAtoms(symbol);
      assert SymbolThenDigitAt(context, atoms, q) by { assert rest(q); }
      assert forall k :: p < k < q ==> !SymbolThenDigitAt(context, atoms, k) by {
        forall k | p < k < q ensures !SymbolThenDigitAt(context, atoms, k) {
          assert !rest(k);
        }
      }
      Some((p, q))
  }

  /** Method 1 finds a capture whenever the symbol and a digit follow a non-empty start
      of the line free of line terminators. */
  lemma BeforeSymbolCaptureFinds(context: string, symbol: string, q: nat)
    requires 0 < q <= LineEnd(context, 0) && SymbolThenDigitAt(context, SymbolAtoms(symbol), q)
    ensures BeforeSymbolCapture(context, symbol).Some?
  {
    var rest := BeforeSymbolRest(context, symbol);
    var f := p => LazyMatchAt(context, p, rest);
    assert rest(q);
    assert f(0).Some?;
  }

  /** `Coffee R25` names the item `Coffee` by method 1. */
  lemma BeforeSymbolItemExample(s: string)
    requires s == "Coffee R25"
    ensures BeforeSymbolItem(s, "R") == Some("Coffee")
  {
    SliceIsCoffee(s, 0);
    CoffeeIsClean("Coffee");
    BeforeSymbolCaptureExample(s);
  }

  /** `Coffee` is kept as an item as it stands. */
  lemma CoffeeIsClean(w: string)
    requires w == "Coffee"
    ensures CleanItem(w) == Some(w)
  {
    TrimOfWordExample(w);
    assert IsAsciiAlnum(w[0]) && !IsDigit(w[0]);
    CleanItemKeepsWord(w);
  }

  /** Method 1's pattern matches `Coffee R25` from its first character and captures
      `Coffee`. */
  lemma BeforeSymbolCaptureExample(s: string)
    requires s == "Coffee R25"
    ensures BeforeSymbolCapture(s, "R") == Some((0, 6))
  {
    BeforeSymbolEndExample(s);
    var f := p => LazyMatchAt(s, p, BeforeSymbolRest(s, "R"));
    assert f(0) == Some(6);
    assert Leftmost(|s|, 0, f) == Some((0, 6));
  }

  /** In `Coffee R25` the shortest capture before `\s*R\s*\d` is `Coffee`. */
  lemma BeforeSymbolEndExample(s: string)
    requires s == "Coffee R25"
    ensures LazyMatchAt(s, 0, BeforeSymbolRest(s, "R")) == Some(6)
  {
    var rest := BeforeSymbolRest(s, "R");
    BeforeSymbolTailExample(s);
    assert SkipSpaces(s, 3) == 3;
    assert LazyEnd(s, 0, 3, rest) == Some(6);
    assert SkipSpaces(s, 2) == 2;
    assert LazyEnd(s, 0, 2, rest) == Some(6);
    assert SkipSpaces(s, 1) == 1;
    assert LazyEnd(s, 0, 1, rest) == Some(6);
  }

  /** The symbol and a digit follow `Coffee`, and nothing earlier from `Coff`. */
  lemma BeforeSymbolTailExample(s: string)
    requires s == "Coffee R25"
    ensures LazyEnd(s, 0, 4, BeforeSymbolRest(s, "R")) == Some(6)
  {
    var rest := BeforeSymbolRest(s, "R");
    assert SymbolAtoms("R") == [Char('R')];
    assert SkipSpaces(s, 7) == 7;
    assert SkipSpaces(s, 6) == 7;
    assert SkipSpaces(s, 8) == 8;
    assert [Char('R')][1..] == [];
    assert MatchAtoms(s, 7, [Char('R')]) == Some(8);
    assert SymbolThenDigitAt(s, SymbolAtoms("R"), 6);
    assert rest(6);
    assert LazyEnd(s, 0, 6, rest) == Some(6);
    assert SkipSpaces(s, 5) == 5;
    assert LazyEnd(s, 0, 5, rest) == Some(6);
    assert SkipSpaces(s, 4) == 4;
    assert LazyEnd(s, 0, 4, rest) == Some(6);
  }

  /** A symbol holding `$` never lets method 1 match: `$` asserts the end of the line,
      where no digit can follow. So `$`, `A$` and `R$` never name an item this way. */
  lemma DollarSymbolNeverNamesItem(context: string, symbol: string)
    requires '$' in symbol
    ensures BeforeSymbolCapture(context, symbol).None?
    ensures BeforeSymbolItem(context, symbol).None?
  {
    var atoms := SymbolAtoms(symbol);
    assert EndOfInput in atoms by {
      var k :| 0 <= k < |symbol| && symbol[k] == '$';
      assert atoms[k] == EndOfInput;
    }
    var rest := BeforeSymbolRest(context, symbol);
    forall q: nat | q <= |context| ensures !SymbolThenDigitAt(context, atoms, q) {
      MatchAtomsPastEnd(context, SkipSpaces(context, q), atoms);
    }
    forall p: nat | p < |context| ensures LazyMatchAt(context, p, rest).None? {
    }
  }

  /** The previous line `lines.indexOf(line)` leads to, trimmed: the line before the
      FIRST line equal to `line`. */
  function PreviousLine(lines: seq<string>, line: string): (r: Option<string>)
    ensures r.Some? <==> IndexOf(lines, line) > 0
    ensures r.Some? ==> r.value == Trim(lines[IndexOf(lines, line) - 1])
  {
    var i := IndexOf(lines, line);
    if i > 0 then Some(Trim(lines[i - 1])) else None
  }

  /** `new RegExp(`\\b${code}\\b`, 'i').test(s)` */
  predicate HasCodeWord(s: string, code: string) {
    exists p: nat :: p + |code| <= |s| && WordBoundary(s, p) && OccursAtIgnoringCase(s, p, code) && WordBoundary(s, p + |code|)
  }

  /** Whether a line mentions one of the twelve symbols, or one of their codes as a
      word in any case. */
  predicate HasCurrencyMention(s: string) {
    exists k :: 0 <= k < |SymbolPatterns| &&
      (Includes(s, SymbolPatterns[k].symbol) || HasCodeWord(s, Code(SymbolPatterns[k].currency)))
  }

  /** `itemTerminators` */
  const ItemTerminators: seq<string> := ["total", "subtotal", "amount", "price", "cost", "fee", "charge", "payment"]

  /** Whether the lower-cased line contains one of the terminator words. */
  predicate HasTerminator(s: string) {
    exists k :: 0 <= k < |ItemTerminators| && Includes(AsciiLowerString(s), ItemTerminators[k])
  }

  /** Method 2: the previous line, when it mentions no currency, is 1 to 49 UTF-16 code
      units long and contains no terminator word. */
  function PreviousLineItem(lines: seq<string>, line: string): (r: Option<string>)
    ensures r.Some? <==>
      && PreviousLine(lines, line).Some?
      && var prev := PreviousLine(lines, line).value;
         !HasCurrencyMention(prev) && 0 < Utf16Length(prev) < 50 && !HasTerminator(prev)
    ensures r.Some? ==> r == PreviousLine(lines, line) && r.value != [] && Trim(r.value) == r.value
  {
    match PreviousLine(lines, line)
    case None => None
    case Some(prev) =>
      TrimIdempotent(lines[IndexOf(lines, line) - 1]);
      if !HasCurrencyMention(prev) && 0 < Utf16Length(prev) < 50 && !HasTerminator(prev) then Some(prev) else None
  }

  /** `(\d+)\s*(?:x|×)\s*([a-z]` tried at `p` under the `i` flag: where the letter that
      starts the item is. Giving back digits or white space cannot help, since a digit
      is neither white space nor `x`, and white space is no letter. */
  function QuantityLetterAt(s: string, p: nat): (r: Option<nat>)
    ensures r.Some? ==> p < r.value < |s| && IsAsciiLetter(s[r.value]) && IsDigit(s[p])
    ensures r.Some? ==> exists a :: (DigitsEnd(s, p) <= a < r.value && IsTimesSign(s[a])
      && (forall k :: DigitsEnd(s, p) <= k < a ==> IsSpace(s[k]))
      && (forall k :: a < k < r.value ==> IsSpace(s[k])))
  {
    if p < |s| && IsDigit(s[p]) then
      var a := SkipSpaces(s, DigitsEnd(s, p));
      if a < |s| && IsTimesSign(s[a]) then
        var u := SkipSpaces(s, a + 1);
        if u < |s| && IsAsciiLetter(s[u]) then Some(u) else None
      else None
    else None
  }

  /** `(?:x|×)` under the `i` flag. */
  predicate IsTimesSign(c: char) {
    c == 'x' || c == 'X' || c == '\U{00D7}'
  }

  /** `(?=\s*\d|\s*$)` at `q`: white space, then a digit or the end of the line. */
  predicate DigitOrEndAhead(s: string, q: nat)
    requires q <= |s|
  {
    SkipSpaces(s, q) == |s| || IsDigit(s[SkipSpaces(s, q)])
  }

  /** The rest of the quantity pattern after `([a-z].+?)`: the lookahead. */
  function QuantityRest(s: string): nat -> bool {
    (q: nat) => q <= |s| && DigitOrEndAhead(s, q)
  }

  /** The quantity pattern tried at `p`: where `([a-z].+?)` starts and ends. */
  function QuantityMatchAt(s: string, p: nat): (r: Option<(nat, nat)>)
    ensures r.Some? ==> p < r.value.0 && r.value.0 + 2 <= r.value.1 <= |s| && IsAsciiLetter(s[r.value.0])
    ensures r.Some? ==> QuantityLetterAt(s, p) == Some(r.value.0)
    ensures r.Some? ==> DigitOrEndAhead(s, r.value.1)
    ensures r.Some? ==> forall q :: r.value.0 + 1 < q < r.value.1 ==> !DigitOrEndAhead(s, q)
    ensures r.Some? ==> forall k :: r.value.0 + 1 <= k < r.value.1 ==> !IsLineTerminator(s[k])
  {
    match QuantityLetterAt(s, p)
    case None => None
    case Some(u) =>
      if u + 1 < |s| then
        var rest := QuantityRest(s);
        match LazyMatchAt(s, u + 1, rest)
        case None => None
        case Some(e) =>
          assert DigitOrEndAhead(s, e) by { assert rest(e); }
          assert forall q :: u + 1 < q < e ==> !DigitOrEndAhead(s, q) by {
            forall q | u + 1 < q < e ensures !DigitOrEndAhead(s, q) {
              assert !rest(q);
            }
          }
          Some((u, e))
      else None
  }

  /** Where the leftmost match of the quantity pattern starts and where it puts
      `([a-z].+?)`: after a quantity, `x` or `×` and white space, the capture starts
      with a letter, takes at least one more character and no line terminator, and
      ends at the first place after that where white space and then a digit or the
      end of the line follow. That the start is the leftmost one is
      `QuantityCaptureIsLeftmost`. */
  function QuantityCapture(context: string): (r: Option<(nat, (nat, nat))>)
    ensures r.Some? ==> QuantityMatchAt(context, r.value.0) == Some(r.value.1)
    ensures r.Some? ==> var (p, (u, e)) := r.value;
      && QuantityLetterAt(context, p) == Some(u)
      && u + 2 <= e <= |context| && IsAsciiLetter(context[u])
      && DigitOrEndAhead(context, e)
      && (forall q :: u + 1 < q < e ==> !DigitOrEndAhead(context, q))
      && (forall k :: u + 1 <= k < e ==> !IsLineTerminator(context[k]))
  {
    var f := (p: nat) => QuantityMatchAt(context, p);
    var m := Leftmost(|context|, 0, f);
    if m.None? then None
    else
      assert QuantityMatchAt(context, m.value.0) == Some(m.value.1) by { assert f(m.value.0) == Some(m.value.1); }
      Some(m.value)
  }

  /** The quantity pattern matches at no start before the one `QuantityCapture`
      reports, and it reports none exactly when the pattern matches nowhere. */
  lemma QuantityCaptureIsLeftmost(context: string)
    ensures QuantityCapture(context).Some? ==>
      forall p :: 0 <= p < QuantityCapture(context).value.0 ==> QuantityMatchAt(context, p).None?
    ensures QuantityCapture(context).None? <==>
      forall p :: 0 <= p < |context| ==> QuantityMatchAt(context, p).None?
  {
    var f := (p: nat) => QuantityMatchAt(context, p);
    var m := Leftmost(|context|, 0, f);
    assert QuantityCapture(context) == m;
    if m.None? {
      forall p: nat | p < |context| ensures QuantityMatchAt(context, p).None? { assert f(p).None?; }
    } else {
      forall p: nat | p < m.value.0 ensures QuantityMatchAt(context, p).None? { assert f(p).None?; }
      assert f(m.value.0).Some?;
    }
  }

  /** Method 3: `context.match(/(\d+)\s*(?:x|×)\s*([a-z].+?)(?=\s*\d|\s*$)/i)`, the
      second capture trimmed. */
  function QuantityItem(context: string): (r: Option<string>)
    ensures QuantityCapture(context).None? ==> r.None?
    ensures QuantityCapture(context).Some? ==>
      var (_, (u, e)) := QuantityCapture(context).value; r == Some(Trim(context[u..e]))
    ensures r.Some? ==> r.value != [] && IsAsciiLetter(r.value[0]) && Trim(r.value) == r.value
  {
    var c := QuantityCapture(context);
    if c.None? then None
    else
      var (u, e) := c.value.1;
      TrimKeepsAlnumStart(context[u..e]);
      TrimIdempotent(context[u..e]);
      Some(Trim(context[u..e]))
  }

  /** `2 x Coffee 5` names the item `Coffee` by method 3. */
  lemma QuantityItemExample()
    ensures QuantityItem("2 x Coffee 5") == Some("Coffee")
  {
    var s := "2 x Coffee 5";
    QuantityLetterExample(s);
    QuantityEndExample(s);
    assert QuantityMatchAt(s, 0) == Some((4, 10));
    var f := p => QuantityMatchAt(s, p);
    assert f(0) == Some((4, 10));
    assert Leftmost(|s|, 0, f) == Some((0, (4, 10)));
    assert QuantityCapture(s) == Some((0, (4, 10)));
    SliceIsCoffee(s, 4);
    TrimOfWordExample("Coffee");
  }

  /** In `2 x Coffee 5` the item starts at `C`. */
  lemma QuantityLetterExample(s: string)
    requires s == "2 x Coffee 5"
    ensures QuantityLetterAt(s, 0) == Some(4)
  {
    assert DigitsEnd(s, 1) == 1;
    assert SkipSpaces(s, 2) == 2;
    assert SkipSpaces(s, 1) == 2;
    assert SkipSpaces(s, 4) == 4;
    assert SkipSpaces(s, 3) == 4;
  }

  /** In `2 x Coffee 5` the lazy item ends before ` 5`. */
  lemma QuantityEndExample(s: string)
    requires s == "2 x Coffee 5"
    ensures LazyMatchAt(s, 5, QuantityRest(s)) == Some(10)
  {
    var rest := QuantityRest(s);
    assert SkipSpaces(s, 11) == 11;
    assert SkipSpaces(s, 10) == 11;
    assert rest(10);
    assert LazyEnd(s, 5, 10, rest) == Some(10);
    assert SkipSpaces(s, 9) == 9;
    assert LazyEnd(s, 5, 9, rest) == Some(10);
    assert SkipSpaces(s, 8) == 8;
    assert LazyEnd(s, 5, 8, rest) == Some(10);
    assert SkipSpaces(s, 7) == 7;
    assert LazyEnd(s, 5, 7, rest) == Some(10);
    assert SkipSpaces(s, 6) == 6;
    assert LazyEnd(s, 5, 6, rest) == Some(10);
  }

  /** The six characters of `s` from `i` spell `Coffee`. */
  lemma SliceIsCoffee(s: string, i: nat)
    requires i + 6 <= |s| && s[i] == 'C' && s[i + 1] == 'o' && s[i + 2] == 'f'
    requires s[i + 3] == 'f' && s[i + 4] == 'e' && s[i + 5] == 'e'
    ensures s[i..i + 6] == "Coffee"
  {
    var w := s[i..i + 6];
    assert forall k :: 0 <= k < 6 ==> w[k] == "Coffee"[k];
  }

  /** `Coffee` and `Coffee R25` have no white space to trim. */
  lemma TrimOfWordExample(w: string)
    requires w == "Coffee" || w == "Coffee R25"
    ensures Trim(w) == w
  {
    var i := TrimIsSlice(w);
    assert !IsSpace(w[0]) && !IsSpace(w[|w| - 1]);
    assert IsSpace(w[0]) || i == 0;
    assert IsSpace(w[|w| - 1]) || |Trim(w)| == |w|;
  }

  /** The item of a symbol amount found on `line`: method 1 on the trimmed line, then
      method 2, then method 3; the first that names an item decides, and there is none
      only when all three fail. */
  function InferItem(lines: seq<string>, line: string, symbol: string): (r: Option<string>)
    ensures BeforeSymbolItem(Trim(line), symbol).Some? ==> r == BeforeSymbolItem(Trim(line), symbol)
    ensures BeforeSymbolItem(Trim(line), symbol).None? && PreviousLineItem(lines, line).Some? ==>
      r == PreviousLineItem(lines, line)
    ensures BeforeSymbolItem(Trim(line), symbol).None? && PreviousLineItem(lines, line).None? ==>
      r == QuantityItem(Trim(line))
    ensures r.Some? ==> r.value != [] && Trim(r.value) == r.value
  {
    var context := Trim(line);
    var item := BeforeSymbolItem(context, symbol);
    if item.Some? then item
    else
      var previous := PreviousLineItem(lines, line);
      if previous.Some? then previous else QuantityItem(context)
  }

  /** A receipt line `Coffee R25` names its rand amount's item `Coffee`, whatever the
      lines around it hold. */
  lemma InferItemExample(lines: seq<string>)
    ensures InferItem(lines, "Coffee R25", "R") == Some("Coffee")
  {
    var line := "Coffee R25";
    TrimOfWordExample(line);
    BeforeSymbolItemExample(line);
  }
}
