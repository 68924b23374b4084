/** The per-currency amount patterns of the chat parser and the amount reader
    (src/lib/parseChat.ts:27-56).

    `createCurrencyPattern(symbol)` builds
      escapedSymbol \s* ( [0-9]{1,3}(?:[., ][0-9]{3})*(?:[.,][0-9]{2})? | [0-9]+(?:[.,][0-9]{2})? )
    and `extractAmount` runs it from index 0, strips white space from the captured
    numeral, turns every ',' into '.', and reads the result with `parseFloat`. */
module ChatAmount {
  import opened Wrappers
  import opened Seqs
  import opened JsString
  import opened Decimal
  import opened PaymentRecords

  /** The characters `/[.*+?^${}()|[\]\\]/` matches. */
  predicate IsRegexSyntax(c: char) {
    c in ".*+?^${}()|[]\\"
  }

  /** `s.replace(/[.*+?^${}()|[\]\\]/g, '\\$&')`: a backslash before every syntax character. */
  function EscapeRegex(s: string): string
  {
    if s == [] then []
    else (if IsRegexSyntax(s[0]) then ['\\', s[0]] else [s[0]]) + EscapeRegex(s[1..])
  }

  /** The text an escaped literal in a pattern source matches: `\c` stands for `c`, any
      other character for itself. */
  function LiteralText(src: string): string
  {
    if src == [] then []
    else if src[0] == '\\' && |src| > 1 then [src[1]] + LiteralText(src[2..])
    else [src[0]] + LiteralText(src[1..])
  }

  /** Escaping makes the symbol match exactly its own characters. */
  lemma {:induction false} LiteralTextOfEscape(s: string)
    ensures LiteralText(EscapeRegex(s)) == s
  {
    if s != [] {
      var rest := EscapeRegex(s[1..]);
      LiteralTextOfEscape(s[1..]);
      if IsRegexSyntax(s[0]) {
        assert EscapeRegex(s) == ['\\', s[0]] + rest;
        assert (['\\', s[0]] + rest)[2..] == rest;
      } else {
        assert EscapeRegex(s) == [s[0]] + rest;
        assert ([s[0]] + rest)[1..] == rest;
      }
    }
  }

  /** A compiled currency pattern; the numeral part after the symbol is fixed. */
  datatype CurrencyPattern = CurrencyPattern(escapedSymbol: string)

  /** `createCurrencyPattern(symbol)` */
  function CreateCurrencyPattern(symbol: string): (p: CurrencyPattern)
    ensures LiteralText(p.escapedSymbol) == symbol
  {
    LiteralTextOfEscape(symbol);
    CurrencyPattern(EscapeRegex(symbol))
  }

  /** The text the symbol part of a pattern matches. */
  function SymbolText(p: CurrencyPattern): string {
    LiteralText(p.escapedSymbol)
  }

  /** `CURRENCY_PATTERNS`, in the order `Object.entries` returns it: the registry's order. */
  function CurrencyPatterns(): (ps: seq<(Currency, CurrencyPattern)>)
    ensures |ps| == |SupportedCurrencies|
    ensures forall k :: 0 <= k < |ps| ==>
      ps[k].0 == SupportedCurrencies[k] && SymbolText(ps[k].1) == Lookup(ps[k].0).value.symbol
  {
    seq(|SupportedCurrencies|, k requires 0 <= k < |SupportedCurrencies| =>
      (SupportedCurrencies[k], CreateCurrencyPattern(Lookup(SupportedCurrencies[k]).value.symbol)))
  }

  predicate IsGroupSeparator(c: char) { c == '.' || c == ',' || c == ' ' }

  predicate IsDecimalSeparator(c: char) { c == '.' || c == ',' }

  /** Greedy `[0-9]{1,3}` from a digit at `j`. */
  function LeadEnd(s: string, j: nat): (e: nat)
    requires j < |s| && IsDigit(s[j])
    ensures j < e <= j + 3 && e <= |s|
    ensures forall k :: j <= k < e ==> IsDigit(s[k])
    ensures e < j + 3 ==> e == |s| || !IsDigit(s[e])
  {
    var d := DigitsEnd(s, j);
    if d <= j + 3 then d else j + 3
  }

  /** Greedy `(?:[., ][0-9]{3})*` from `p`. */
  function GroupsEnd(s: string, p: nat): (e: nat)
    requires p <= |s|
    ensures p <= e <= |s|
    ensures e == p || IsGroupSeparator(s[p])
    decreases |s| - p
  {
    if p + 4 <= |s| && IsGroupSeparator(s[p]) && IsDigit(s[p + 1]) && IsDigit(s[p + 2]) && IsDigit(s[p + 3])
    then GroupsEnd(s, p + 4)
    else p
  }

  /** Greedy `(?:[.,][0-9]{2})?` from `q`. */
  function FractionEnd(s: string, q: nat): (e: nat)
    requires q <= |s|
    ensures q <= e <= |s|
    ensures e == q || IsDecimalSeparator(s[q])
  {
    if q + 3 <= |s| && IsDecimalSeparator(s[q]) && IsDigit(s[q + 1]) && IsDigit(s[q + 2]) then q + 3 else q
  }

  /** Where `[0-9]{1,3}(?:[., ][0-9]{3})*(?:[.,][0-9]{2})?` ends when tried at `j`.
      Nothing follows the group in the pattern, so the first way to match, taking
      every quantifier greedily, is the one the engine keeps. */
  function FirstAlternativeEnd(s: string, j: nat): Option<nat>
    requires j <= |s|
  {
    if j < |s| && IsDigit(s[j]) then Some(FractionEnd(s, GroupsEnd(s, LeadEnd(s, j)))) else None
  }

  /** Where `[0-9]+(?:[.,][0-9]{2})?` ends when tried at `j`. */
  function SecondAlternativeEnd(s: string, j: nat): Option<nat>
    requires j <= |s|
  {
    if j < |s| && IsDigit(s[j]) then Some(FractionEnd(s, DigitsEnd(s, j))) else None
  }

  /** The alternation: the second branch is tried only when the first fails. */
  function NumeralEnd(s: string, j: nat): (r: Option<nat>)
    requires j <= |s|
    ensures r.Some? ==> j < r.value <= |s|
  {
    var first := FirstAlternativeEnd(s, j);
    if first.Some? then first else SecondAlternativeEnd(s, j)
  }

  /** Both branches start with a digit, so the second one is never used. */
  lemma FirstAlternativeAlwaysWins(s: string, j: nat)
    requires j <= |s|
    ensures SecondAlternativeEnd(s, j).Some? ==> NumeralEnd(s, j) == FirstAlternativeEnd(s, j)
    ensures NumeralEnd(s, j) == FirstAlternativeEnd(s, j)
  {
  }

  /** The numeral a pattern whose symbol text is `lit` captures when the match starts
      at `i`. `\s*` is greedy; giving back white space cannot help, since the numeral
      must begin with a digit. */
  function MatchAt(s: string, lit: string, i: nat): (r: Option<string>)
    ensures r.Some? <==>
      OccursAt(s, i, lit) && SkipSpaces(s, i + |lit|) < |s| && IsDigit(s[SkipSpaces(s, i + |lit|)])
  {
    if OccursAt(s, i, lit) then
      var j := SkipSpaces(s, i + |lit|);
      match NumeralEnd(s, j)
      case Some(e) => Some(s[j..e])
      case None => None
    else None
  }

  /** The leftmost index at or after `from` where a match starts, as `exec` finds it
      with `lastIndex` reset to 0. */
  function FirstMatchStart(s: string, lit: string, from: nat): (r: Option<nat>)
    ensures r.Some? ==> from <= r.value <= |s| && MatchAt(s, lit, r.value).Some?
    ensures r.Some? ==> forall k :: from <= k < r.value ==> MatchAt(s, lit, k).None?
    ensures r.None? ==> forall k :: from <= k <= |s| ==> MatchAt(s, lit, k).None?
    decreases |s| + 1 - from
  {
    if from > |s| then None
    else if MatchAt(s, lit, from).Some? then Some(from)
    else FirstMatchStart(s, lit, from + 1)
  }

  /** The captured numeral with white space removed and every ',' turned into '.'. */
  function NormalizeAmount(numeral: string): string {
    ReplaceAll(RemoveSpaces(numeral), ',', '.')
  }

  /** `extractAmount(text, pattern)` */
  function ExtractAmount(text: string, p: CurrencyPattern): Option<real>
  {
    match FirstMatchStart(text, SymbolText(p), 0)
    case None => None
    case Some(i) =>
      var numeral := MatchAt(text, SymbolText(p), i).value;
      if numeral == "" then None else ParseFloat(NormalizeAmount(numeral))
  }

  /** A captured numeral starts with a digit, holds only digits and separators, and
      its leading digit group has at most three digits. */
  lemma CapturedNumeralShape(s: string, lit: string, i: nat)
    requires MatchAt(s, lit, i).Some?
    ensures var n := MatchAt(s, lit, i).value;
      && |n| > 0 && IsDigit(n[0])
      && (forall k :: 0 <= k < |n| ==> IsDigit(n[k]) || IsGroupSeparator(n[k]))
      && (|n| >= 4 ==> !AllDigits(n[..4]))
  {
    var j := SkipSpaces(s, i + |lit|);
    var lead := LeadEnd(s, j);
    var groups := GroupsEnd(s, lead);
    var e := FractionEnd(s, groups);
    var n := s[j..e];
    assert MatchAt(s, lit, i).value == n;
    GroupsShape(s, lead);
    forall k | 0 <= k < |n| ensures IsDigit(n[k]) || IsGroupSeparator(n[k]) {
      assert n[k] == s[j + k];
      if j + k >= groups && j + k > groups {
        assert IsDigit(s[j + k]);
      }
    }
    if |n| >= 4 {
      if lead < j + 3 {
        assert !IsDigit(n[lead - j]);
      } else {
        assert !IsDigit(n[3]);
      }
    }
  }

  /** Between `p` and `GroupsEnd(s, p)` there are only digits and separators, and a
      separator at every fourth position. */
  lemma GroupsShape(s: string, p: nat)
    requires p <= |s|
    ensures forall k :: p <= k < GroupsEnd(s, p) ==> IsDigit(s[k]) || IsGroupSeparator(s[k])
    ensures GroupsEnd(s, p) > p ==> IsGroupSeparator(s[p])
    decreases |s| - p
  {
    if GroupsEnd(s, p) > p { GroupsShape(s, p + 4); }
  }

  /** After normalisation a numeral is digits and '.' only and starts with a digit,
      so `parseFloat` always reads a number from it. */
  lemma NormalizedNumeral(n: string)
    requires |n| > 0 && IsDigit(n[0])
    requires forall k :: 0 <= k < |n| ==> IsDigit(n[k]) || IsGroupSeparator(n[k])
    ensures var m := NormalizeAmount(n);
      && |m| > 0 && IsDigit(m[0])
      && (forall k :: 0 <= k < |m| ==> IsDigit(m[k]) || m[k] == '.')
      && ParseFloat(m).Some?
  {
    var r := RemoveSpaces(n);
    assert r == [n[0]] + RemoveSpaces(n[1..]);
    RemoveSpacesMembers(n);
    forall k | 0 <= k < |r| ensures IsDigit(r[k]) || IsDecimalSeparator(r[k]) {
      assert r[k] in r;
    }
  }

  /** `extractAmount` reads the numeral at the leftmost place where the symbol is
      followed by optional white space and a digit, and finds an amount exactly when
      there is such a place; the amount is never negative. */
  lemma ExtractAmountAtLeftmostMatch(text: string, p: CurrencyPattern, i: nat)
    requires MatchAt(text, SymbolText(p), i).Some?
    requires forall k :: 0 <= k < i ==> MatchAt(text, SymbolText(p), k).None?
    ensures ExtractAmount(text, p) == ParseFloat(NormalizeAmount(MatchAt(text, SymbolText(p), i).value))
    ensures ExtractAmount(text, p).Some? && ExtractAmount(text, p).value >= 0.0
  {
    var lit := SymbolText(p);
    var f := FirstMatchStart(text, lit, 0);
    assert f == Some(i);
    CapturedNumeralShape(text, lit, i);
    NormalizedNumeral(MatchAt(text, lit, i).value);
  }

  /** Without a symbol followed by optional white space and a digit there is no amount. */
  lemma ExtractAmountWithoutMatch(text: string, p: CurrencyPattern)
    requires forall k :: 0 <= k <= |text| ==> MatchAt(text, SymbolText(p), k).None?
    ensures ExtractAmount(text, p) == None
  {
    assert FirstMatchStart(text, SymbolText(p), 0).None?;
  }

  /** The pattern `CURRENCY_PATTERNS` holds for a registered currency. */
  function PatternFor(c: Currency): (p: CurrencyPattern)
    requires c in SupportedCurrencies
    ensures SymbolText(p) == Lookup(c).value.symbol
  {
    CreateCurrencyPattern(Lookup(c).value.symbol)
  }

  /** The amount the pattern of the `k`-th registered currency reads from `content`. */
  function AmountFor(content: string, k: nat): Option<real>
    requires k < |SupportedCurrencies|
  {
    ExtractAmount(content, PatternFor(SupportedCurrencies[k]))
  }

  /** The `k`-th registered currency's pattern reads an amount and none before it does. */
  predicate FirstReadingPattern(content: string, k: nat)
    requires k < |SupportedCurrencies|
  {
    AmountFor(content, k).Some? && forall j :: 0 <= j < k ==> AmountFor(content, j).None?
  }

  /** The `k`-th registered currency decides `content` with amount `a`. */
  predicate DecidedBy(content: string, k: nat, a: real)
    requires k < |SupportedCurrencies|
  {
    FirstReadingPattern(content, k) && AmountFor(content, k) == Some(a)
  }

  /** The amounts the six patterns read, in registry order. */
  function Amounts(content: string): (xs: seq<Option<real>>)
    ensures |xs| == |SupportedCurrencies|
    ensures forall k :: 0 <= k < |xs| ==> xs[k] == AmountFor(content, k)
  {
    seq(|SupportedCurrencies|, k requires 0 <= k < |SupportedCurrencies| => AmountFor(content, k))
  }

  /** The currency loop of `parseChat`: the patterns are tried in registry order and
      the first one that reads an amount decides the currency and the amount. */
  function DetectAmount(content: string): (r: Option<(Currency, real)>)
    ensures r.Some? ==> exists k :: 0 <= k < |SupportedCurrencies| && r.value.0 == SupportedCurrencies[k] && DecidedBy(content, k, r.value.1)
    ensures r.None? <==> forall k :: 0 <= k < |SupportedCurrencies| ==> AmountFor(content, k).None?
    ensures r.Some? ==> r.value.0 in SupportedCurrencies && r.value.1 >= 0.0
  {
    FirstPresentDecides(content);
    match FirstPresent(Amounts(content), 0)
    case None => None
    case Some((k, a)) => Some((SupportedCurrencies[k], a))
  }

  /** The first pattern that reads an amount decides; none decides when none reads one. */
  lemma FirstPresentDecides(content: string)
    ensures var r := FirstPresent(Amounts(content), 0);
      && (r.Some? ==> r.value.0 < |SupportedCurrencies| && DecidedBy(content, r.value.0, r.value.1) && r.value.1 >= 0.0)
      && (r.None? <==> forall k :: 0 <= k < |SupportedCurrencies| ==> AmountFor(content, k).None?)
  {
    var xs := Amounts(content);
    var r := FirstPresent(xs, 0);
    if r.Some? {
      var k := r.value.0;
      assert xs[k] == AmountFor(content, k) == Some(r.value.1);
      forall j | 0 <= j < k ensures AmountFor(content, j).None? {
        assert xs[j] == AmountFor(content, j);
      }
      AmountNonNegative(content, k);
    } else {
      forall j | 0 <= j < |SupportedCurrencies| ensures AmountFor(content, j).None? {
        assert xs[j] == AmountFor(content, j);
      }
    }
  }

  /** `parseFloat` of a numeral is never negative. */
  lemma AmountNonNegative(content: string, k: nat)
    requires k < |SupportedCurrencies| && AmountFor(content, k).Some?
    ensures AmountFor(content, k).value >= 0.0
  {
  }

  /** The pattern the loop stops at decides the currency and the amount. */
  lemma FirstReadingDecides(content: string, k: nat)
    requires k < |SupportedCurrencies| && FirstReadingPattern(content, k)
    ensures DetectAmount(content) == Some((SupportedCurrencies[k], AmountFor(content, k).value))
  {
    var r := DetectAmount(content);
    assert r.Some?;
    var j :| 0 <= j < |SupportedCurrencies| && r.value.0 == SupportedCurrencies[j] && DecidedBy(content, j, r.value.1);
    assert AmountFor(content, j) == Some(r.value.1) && AmountFor(content, k).Some?;
    assert j == k;
  }

  /** `R12345` reads as 123: the leading group stops after three digits and the
      first alternative, which matches, is kept. */
  lemma LeadingGroupStopsAtThreeDigits()
    ensures MatchAt("R12345", "R", 0) == Some("123")
    ensures ExtractAmount("R12345", PatternFor(ZAR)) == Some(123.0)
  {
    LeadingGroupMatch();
    PlainNumeralRead();
    assert SymbolText(PatternFor(ZAR)) == "R";
    ExtractAmountAtLeftmostMatch("R12345", PatternFor(ZAR), 0);
  }

  lemma LeadingGroupMatch()
    ensures MatchAt("R12345", "R", 0) == Some("123")
  {
    var s := "R12345";
    assert OccursAt(s, 0, "R");
    assert SkipSpaces(s, 1) == 1;
    assert DigitsEnd(s, 1) == 6 by { DigitsEndAt(s, 1, 6); }
    assert LeadEnd(s, 1) == 4;
    assert GroupsEnd(s, 4) == 4;
    assert FractionEnd(s, 4) == 4;
    assert s[1..4] == "123";
  }

  lemma PlainNumeralRead()
    ensures ParseFloat(NormalizeAmount("123")) == Some(123.0)
  {
    DigitsNormalized("123");
    DigitsValue123();
    ParseWholeNumber("123", 123);
  }

  /** `parseFloat` of a run of digits is its value. */
  lemma ParseWholeNumber(digits: string, n: nat)
    requires |digits| > 0 && AllDigits(digits) && DigitsValue(digits) == n
    ensures ParseFloat(digits) == Some(n as real)
  {
    ParseFloatStopsAfterInteger(digits, "");
    assert digits + "" == digits;
  }

  lemma DigitsValue123()
    ensures DigitsValue("123") == 123
  {
    assert "123"[..2] == "12" && "12"[..1] == "1" && "1"[..0] == "";
  }

  lemma DigitsValue1000()
    ensures DigitsValue("1000") == 1000
  {
    assert "1000"[..3] == "100" && "100"[..2] == "10" && "10"[..1] == "1" && "1"[..0] == "";
  }

  /** Normalising a run of digits leaves it as it is. */
  lemma DigitsNormalized(n: string)
    requires AllDigits(n)
    ensures NormalizeAmount(n) == n
  {
    RemoveSpacesWithoutSpaces(n);
    var r := ReplaceAll(n, ',', '.');
    assert forall k :: 0 <= k < |n| ==> r[k] == n[k];
  }

  /** A text in which the symbol's first character never appears has no amount. */
  lemma AbsentSymbolReadsNothing(text: string, p: CurrencyPattern)
    requires |SymbolText(p)| > 0 && SymbolText(p)[0] !in text
    ensures ExtractAmount(text, p) == None
  {
    var lit := SymbolText(p);
    forall k | 0 <= k <= |text| ensures MatchAt(text, lit, k).None? {
      if k + |lit| <= |text| {
        assert text[k..k + |lit|][0] == text[k];
      }
    }
    ExtractAmountWithoutMatch(text, p);
  }

  /** `R1 000` reads as 1000: a space separates thousands and is dropped. */
  lemma SpaceSeparatedThousands()
    ensures MatchAt("R1 000", "R", 0) == Some("1 000")
    ensures NormalizeAmount("1 000") == "1000"
    ensures ExtractAmount("R1 000", PatternFor(ZAR)) == Some(1000.0)
  {
    ThousandsCapture("R1 000", ' ');
    assert "1" + [' '] + "000" == "1 000";
    SpaceSeparatedRead();
    ZarPatternReadsAt("R1 000", 0, "1 000", 1000.0);
  }

  lemma SpaceSeparatedRead()
    ensures NormalizeAmount("1 000") == "1000"
    ensures ParseFloat("1000") == Some(1000.0)
  {
    SpacesRemoved();
    assert ReplaceAll("1000", ',', '.') == "1000";
    ThousandParsed();
  }

  lemma ThousandParsed()
    ensures ParseFloat("1000") == Some(1000.0)
  {
    DigitsValue1000();
    ParseWholeNumber("1000", 1000);
  }

  lemma SpacesRemoved()
    ensures RemoveSpaces("1 000") == "1000"
  {
    assert "1 000" == "1" + [' '] + "000";
    RemoveOneSpace("1", "000");
    assert "1" + "000" == "1000";
  }

  /** Removing the white space around one space joins the two sides. */
  lemma {:induction false} RemoveOneSpace(a: string, b: string)
    requires forall k :: 0 <= k < |a| ==> !IsSpace(a[k])
    requires forall k :: 0 <= k < |b| ==> !IsSpace(b[k])
    ensures RemoveSpaces(a + [' '] + b) == a + b
  {
    var t := a + [' '] + b;
    if a == [] {
      assert t == [' '] + b && t[1..] == b;
      assert RemoveSpaces(t) == RemoveSpaces(b);
      RemoveSpacesWithoutSpaces(b);
    } else {
      assert t[0] == a[0] && t[1..] == a[1..] + [' '] + b;
      assert RemoveSpaces(t) == [a[0]] + RemoveSpaces(t[1..]);
      assert forall k :: 0 <= k < |a[1..]| ==> a[1..][k] == a[k + 1];
      RemoveOneSpace(a[1..], b);
      assert a + b == [a[0]] + (a[1..] + b);
    }
  }

  /** `R1 000` and `R1,000` match the same way: the separator joins a group of three
      digits to the leading digit, and the numeral ends with the text. */
  lemma ThousandsCapture(s: string, sep: char)
    requires sep == ' ' || sep == ','
    requires s == "R1" + [sep] + "000"
    ensures MatchAt(s, "R", 0) == Some("1" + [sep] + "000")
  {
    assert OccursAt(s, 0, "R");
    assert SkipSpaces(s, 1) == 1;
    assert DigitsEnd(s, 1) == 2 by { DigitsEndAt(s, 1, 2); }
    assert LeadEnd(s, 1) == 2;
    assert GroupsEnd(s, 6) == 6;
    assert GroupsEnd(s, 2) == 6;
    assert FractionEnd(s, 6) == 6;
    assert s[1..6] == "1" + [sep] + "000";
  }

  /** The ZAR pattern reads `v` from a text whose first match is at `i`. */
  lemma ZarPatternReadsAt(text: string, i: nat, numeral: string, v: real)
    requires MatchAt(text, "R", i) == Some(numeral)
    requires forall k :: 0 <= k < i ==> MatchAt(text, "R", k).None?
    requires ParseFloat(NormalizeAmount(numeral)) == Some(v)
    ensures ExtractAmount(text, PatternFor(ZAR)) == Some(v)
  {
    assert SymbolText(PatternFor(ZAR)) == "R";
    ExtractAmountAtLeftmostMatch(text, PatternFor(ZAR), i);
  }

  /** `R25,50` reads as 25.5: a comma before two final digits is a decimal point. */
  lemma CommaDecimalFraction()
    ensures MatchAt("R25,50", "R", 0) == Some("25,50")
    ensures NormalizeAmount("25,50") == "25.50"
    ensures ExtractAmount("R25,50", PatternFor(ZAR)) == Some(25.5)
  {
    CommaFractionCapture();
    CommaFractionNormalized();
    CommaFractionParsed();
    ZarPatternReadsAt("R25,50", 0, "25,50", 25.5);
  }

  lemma CommaFractionNormalized()
    ensures NormalizeAmount("25,50") == "25.50"
  {
    CommaFractionHasNoSpaces();
    CommaFractionCommaReplaced();
  }

  lemma CommaFractionHasNoSpaces()
    ensures RemoveSpaces("25,50") == "25,50"
  {
    RemoveSpacesWithoutSpaces("25,50");
  }

  lemma CommaFractionCommaReplaced()
    ensures ReplaceAll("25,50", ',', '.') == "25.50"
  {
    var r := ReplaceAll("25,50", ',', '.');
    assert r[0] == '2' && r[1] == '5' && r[2] == '.' && r[3] == '5' && r[4] == '0';
  }

  lemma CommaFractionParsed()
    ensures ParseFloat("25.50") == Some(25.5)
  {
    assert DigitsValue("25") == 25 by {
      assert "25"[..1] == "2" && "2"[..0] == "";
    }
    ParseFloatStopsAfterFraction("25", "50", "");
    assert "25" + "." + "50" + "" == "25.50";
    assert FractionValue("50") == 0.5 by {
      assert "50"[1..] == "0" && "0"[1..] == "";
      assert FractionValue("0") == 0.0;
    }
  }

  lemma CommaFractionCapture()
    ensures MatchAt("R25,50", "R", 0) == Some("25,50")
  {
    var s := "R25,50";
    assert OccursAt(s, 0, "R");
    assert SkipSpaces(s, 1) == 1;
    assert DigitsEnd(s, 1) == 3 by { DigitsEndAt(s, 1, 3); }
    assert LeadEnd(s, 1) == 3;
    assert GroupsEnd(s, 3) == 3;
    assert FractionEnd(s, 3) == 6;
    assert s[1..6] == "25,50";
  }

  /** `R1,000` reads as 1: the comma becomes a decimal point, so the thousands
      group turns into a fraction of zero. */
  lemma CommaThousandsReadAsFraction()
    ensures MatchAt("R1,000", "R", 0) == Some("1,000")
    ensures NormalizeAmount("1,000") == "1.000"
    ensures ExtractAmount("R1,000", PatternFor(ZAR)) == Some(1.0)
  {
    ThousandsCapture("R1,000", ',');
    assert "1" + [','] + "000" == "1,000";
    CommaThousandsNormalized();
    CommaThousandsParsed();
    ZarPatternReadsAt("R1,000", 0, "1,000", 1.0);
  }

  lemma CommaThousandsNormalized()
    ensures NormalizeAmount("1,000") == "1.000"
  {
    CommaThousandsHasNoSpaces();
    CommaThousandsCommaReplaced();
  }

  lemma CommaThousandsHasNoSpaces()
    ensures RemoveSpaces("1,000") == "1,000"
  {
    RemoveSpacesWithoutSpaces("1,000");
  }

  lemma CommaThousandsCommaReplaced()
    ensures ReplaceAll("1,000", ',', '.') == "1.000"
  {
    var r := ReplaceAll("1,000", ',', '.');
    assert r[0] == '1' && r[1] == '.' && r[2] == '0' && r[3] == '0' && r[4] == '0';
  }

  lemma CommaThousandsParsed()
    ensures ParseFloat("1.000") == Some(1.0)
  {
    assert DigitsValue("1") == 1 by {
      assert "1"[..0] == "";
    }
    ParseFloatStopsAfterFraction("1", "000", "");
    assert "1" + "." + "000" + "" == "1.000";
    assert FractionValue("000") == 0.0 by {
      assert "000"[1..] == "00" && "00"[1..] == "0" && "0"[1..] == "";
      assert FractionValue("0") == 0.0 && FractionValue("00") == 0.0;
    }
  }

  /** `A$50` resolves to USD: the registry tries `$` before `A$`, and `R` does not occur. */
  lemma AustralianSymbolResolvesToUsDollar(content: string)
    requires content == "A$50"
    ensures DetectAmount(content) == Some((USD, 50.0))
  {
    RandAbsent(content);
    DollarReadsFifty(content);
    assert SupportedCurrencies[0] == ZAR && SupportedCurrencies[1] == USD;
    DetectSecond(content);
  }

  lemma RandAbsent(content: string)
    requires content == "A$50"
    ensures ExtractAmount(content, PatternFor(ZAR)) == None
  {
    assert SymbolText(PatternFor(ZAR)) == "R";
    AbsentSymbolReadsNothing(content, PatternFor(ZAR));
  }

  lemma DollarReadsFifty(content: string)
    requires content == "A$50"
    ensures ExtractAmount(content, PatternFor(USD)) == Some(50.0)
  {
    DollarCapture();
    FiftyRead();
    assert SymbolText(PatternFor(USD)) == "$";
    ExtractAmountAtLeftmostMatch(content, PatternFor(USD), 1);
  }

  lemma FiftyRead()
    ensures ParseFloat(NormalizeAmount("50")) == Some(50.0)
  {
    DigitsNormalized("50");
    FiftyParsed();
  }

  lemma FiftyParsed()
    ensures ParseFloat("50") == Some(50.0)
  {
    assert DigitsValue("50") == 50 by {
      assert "50"[..1] == "5" && "5"[..0] == "";
    }
    ParseWholeNumber("50", 50);
  }

  lemma DollarCapture()
    ensures MatchAt("A$50", "$", 1) == Some("50")
    ensures MatchAt("A$50", "$", 0).None?
  {
    var s := "A$50";
    assert OccursAt(s, 1, "$");
    assert SkipSpaces(s, 2) == 2;
    assert DigitsEnd(s, 2) == 4 by { DigitsEndAt(s, 2, 4); }
    assert LeadEnd(s, 2) == 4;
    assert GroupsEnd(s, 4) == 4;
    assert FractionEnd(s, 4) == 4;
    assert s[2..4] == "50";
    assert s[0] == 'A';
  }

  /** When the first pattern reads nothing and the second reads `v`, the second decides. */
  lemma DetectSecond(content: string)
    requires AmountFor(content, 0).None? && AmountFor(content, 1).Some?
    ensures DetectAmount(content) == Some((SupportedCurrencies[1], AmountFor(content, 1).value))
  {
    var xs := Amounts(content);
    assert FirstPresent(xs, 1) == Some((1, xs[1].value));
  }
}
