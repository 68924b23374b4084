/** String primitives with the semantics of the JavaScript built-ins the pipeline uses:
    the `\s`, `\d`, `\w` and `.` classes of a regular expression without the `u` flag,
    `trim`, `split` with a one-character separator, `split(/\r?\n/)`, `includes`,
    one-character `replace`, case-insensitive comparison, and the UTF-16 `length`.

    A string is a sequence of Unicode scalar values; JavaScript counts UTF-16 code units,
    which only `Utf16Length` has to account for: every pattern character and every class
    used here lies in the Basic Multilingual Plane, so no match can begin or end inside
    a surrogate pair. */
module JsString {
  import opened Seqs

  /** `\s`, and what `trim` removes: ECMAScript WhiteSpace plus LineTerminator. */
  predicate IsSpace(c: char) {
    var n := c as int;
    n == 0x09 || n == 0x0A || n == 0x0B || n == 0x0C || n == 0x0D || n == 0x20
    || n == 0xA0 || n == 0x1680 || (0x2000 <= n <= 0x200A) || n == 0x2028 || n == 0x2029
    || n == 0x202F || n == 0x205F || n == 0x3000 || n == 0xFEFF
  }

  /** The characters `.` does not match. */
  predicate IsLineTerminator(c: char) {
    c == '\n' || c == '\r' || c == '\U{2028}' || c == '\U{2029}'
  }

  /** `\d` (and `[0-9]`) */
  predicate IsDigit(c: char) { '0' <= c <= '9' }

  predicate IsAsciiLetter(c: char) { 'a' <= c <= 'z' || 'A' <= c <= 'Z' }

  /** `[a-zA-Z0-9]`, which is also what `[a-z0-9]` means under the `i` flag */
  predicate IsAsciiAlnum(c: char) { IsAsciiLetter(c) || IsDigit(c) }

  /** `\w` */
  predicate IsWordChar(c: char) { IsAsciiAlnum(c) || c == '_' }

  predicate IsAscii(c: char) { (c as int) < 0x80 }

  predicate AllDigits(s: string) { forall k :: 0 <= k < |s| ==> IsDigit(s[k]) }

  /** Lower-cases `A`-`Z` and leaves every other character alone. */
  function AsciiLower(c: char): (r: char)
    ensures 'A' <= c <= 'Z' ==> 'a' <= r <= 'z' && r as int == c as int + 32
    ensures !('A' <= c <= 'Z') ==> r == c
  {
    if 'A' <= c <= 'Z' then (c as int + 32) as char else c
  }

  function AsciiLowerString(s: string): (r: string)
    ensures |r| == |s|
    ensures forall k :: 0 <= k < |s| ==> r[k] == AsciiLower(s[k])
  {
    seq(|s|, k requires 0 <= k < |s| => AsciiLower(s[k]))
  }

  /** Whether text character `c` matches pattern character `p` under the `i` flag.
      Without the `u` flag the engine compares upper-case forms and never lets a
      character above U+007F match an ASCII one, so an ASCII letter matches itself in
      either case and every other pattern character used here matches only itself
      (none of the non-ASCII currency signs has a case variant). */
  predicate SameIgnoringCase(c: char, p: char) {
    AsciiLower(c) == AsciiLower(p)
  }

  /** `lit` occurs in `s` at index `i`. */
  predicate OccursAt(s: string, i: nat, lit: string) {
    i + |lit| <= |s| && s[i..i + |lit|] == lit
  }

  /** `lit` occurs in `s` at index `i` under the `i` flag. */
  predicate OccursAtIgnoringCase(s: string, i: nat, lit: string) {
    i + |lit| <= |s| && forall k :: 0 <= k < |lit| ==> SameIgnoringCase(s[i + k], lit[k])
  }

  /** `String.prototype.includes` */
  predicate Includes(s: string, sub: string) {
    exists i: nat :: i <= |s| && OccursAt(s, i, sub)
  }

  /** Greedy `\s*` starting at `j`: the index just past the run of white space. */
  function SkipSpaces(s: string, j: nat): (e: nat)
    requires j <= |s|
    ensures j <= e <= |s|
    ensures forall k :: j <= k < e ==> IsSpace(s[k])
    ensures e == |s| || !IsSpace(s[e])
    decreases |s| - j
  {
    if j < |s| && IsSpace(s[j]) then SkipSpaces(s, j + 1) else j
  }

  /** Greedy `\d*` starting at `j`: the index just past the run of digits. */
  function DigitsEnd(s: string, j: nat): (e: nat)
    requires j <= |s|
    ensures j <= e <= |s|
    ensures forall k :: j <= k < e ==> IsDigit(s[k])
    ensures e == |s| || !IsDigit(s[e])
    decreases |s| - j
  {
    if j < |s| && IsDigit(s[j]) then DigitsEnd(s, j + 1) else j
  }

  /** The first index at or after `j` holding a line terminator, or `|s|`:
      how far a greedy `.*` starting at `j` reaches. */
  function LineEnd(s: string, j: nat): (e: nat)
    requires j <= |s|
    ensures j <= e <= |s|
    ensures forall k :: j <= k < e ==> !IsLineTerminator(s[k])
    ensures e == |s| || IsLineTerminator(s[e])
    decreases |s| - j
  {
    if j < |s| && !IsLineTerminator(s[j]) then LineEnd(s, j + 1) else j
  }

  /** `String.prototype.trimStart` */
  function TrimStart(s: string): (r: string)
    ensures |r| <= |s| && r == s[|s| - |r|..]
    ensures forall k :: 0 <= k < |s| - |r| ==> IsSpace(s[k])
    ensures r == [] || !IsSpace(r[0])
  {
    if |s| > 0 && IsSpace(s[0]) then TrimStart(s[1..]) else s
  }

  /** `String.prototype.trimEnd` */
  function TrimEnd(s: string): (r: string)
    ensures |r| <= |s| && r == s[..|r|]
    ensures forall k :: |r| <= k < |s| ==> IsSpace(s[k])
    ensures r == [] || !IsSpace(r[|r| - 1])
  {
    if |s| > 0 && IsSpace(s[|s| - 1]) then TrimEnd(s[..|s| - 1]) else s
  }

  /** `String.prototype.trim`: white space removed from both ends. */
  function Trim(s: string): (r: string)
    ensures r == [] || (!IsSpace(r[0]) && !IsSpace(r[|r| - 1]))
    ensures r == [] <==> forall k :: 0 <= k < |s| ==> IsSpace(s[k])
  {
    var t := TrimStart(s);
    var r := TrimEnd(t);
    assert r != [] ==> r[0] == t[0] by {
      if r != [] { assert t[..|r|][0] == t[0]; }
    }
    assert r == [] ==> forall k :: 0 <= k < |s| ==> IsSpace(s[k]) by {
      if r == [] {
        assert t == [];
      }
    }
    r
  }

  /** `Trim` leaves a string with no white space at either end unchanged. */
  lemma TrimUnchanged(s: string)
    requires s == [] || (!IsSpace(s[0]) && !IsSpace(s[|s| - 1]))
    ensures Trim(s) == s
  {
  }

  /** `Trim(s)` is `s` with a white-space prefix and a white-space suffix removed. */
  lemma TrimIsSlice(s: string) returns (i: nat)
    ensures i + |Trim(s)| <= |s| && Trim(s) == s[i..i + |Trim(s)|]
    ensures forall k :: 0 <= k < i ==> IsSpace(s[k])
    ensures forall k :: i + |Trim(s)| <= k < |s| ==> IsSpace(s[k])
  {
    var t := TrimStart(s);
    i := |s| - |t|;
    var r := TrimEnd(t);
    assert Trim(s) == r;
    TrimEndSlice(t);
    SpacesAroundSlice(s, t, r, i);
  }

  /** A white-space tail of a suffix is a white-space tail of the whole. */
  lemma SpacesAroundSlice(s: string, t: string, r: string, i: nat)
    requires i <= |s| && t == s[i..] && |r| <= |t| && r == t[..|r|]
    requires forall k :: |r| <= k < |t| ==> IsSpace(t[k])
    ensures r == s[i..i + |r|]
    ensures forall k :: i + |r| <= k < |s| ==> IsSpace(s[k])
  {
    forall k | i + |r| <= k < |s| ensures IsSpace(s[k]) {
      assert s[k] == t[k - i];
    }
  }

  lemma TrimEndSlice(t: string)
    ensures TrimEnd(t) == t[..|TrimEnd(t)|]
    ensures forall k :: |TrimEnd(t)| <= k < |t| ==> IsSpace(t[k])
  {
  }

  /** Trimming white space off the front of a string that is otherwise trimmed. */
  lemma {:induction false} TrimAfterSpaces(p: string, x: string)
    requires forall k :: 0 <= k < |p| ==> IsSpace(p[k])
    requires x == [] || (!IsSpace(x[0]) && !IsSpace(x[|x| - 1]))
    ensures Trim(p + x) == x
  {
    if p == [] {
      assert p + x == x;
      TrimUnchanged(x);
    } else {
      TrimAfterSpaces(p[1..], x);
      assert (p + x)[0] == p[0] && (p + x)[1..] == p[1..] + x;
      TrimDropsLeadingSpace(p + x);
    }
  }

  /** A leading white-space character does not change the trimmed string. */
  lemma TrimDropsLeadingSpace(s: string)
    requires |s| > 0 && IsSpace(s[0])
    ensures Trim(s) == Trim(s[1..])
  {
    assert TrimStart(s) == TrimStart(s[1..]);
  }

  /** Trimming twice is trimming once. */
  lemma TrimIdempotent(s: string)
    ensures Trim(Trim(s)) == Trim(s)
  {
    TrimUnchanged(Trim(s));
  }

  /** `ReplaceFirst(s, a, b)` is `s.replace(a, b)` with one-character strings:
      only the first `a` becomes `b`. */
  function ReplaceFirst(s: string, a: char, b: char): (r: string)
    ensures |r| == |s|
  {
    var i := IndexOf(s, a);
    if i < 0 then s else s[i := b]
  }

  /** `s.replace(/a/g, b)` for one character each. */
  function ReplaceAll(s: string, a: char, b: char): (r: string)
    ensures |r| == |s|
    ensures forall k :: 0 <= k < |s| ==> r[k] == (if s[k] == a then b else s[k])
  {
    seq(|s|, k requires 0 <= k < |s| => if s[k] == a then b else s[k])
  }

  /** `s.replace(/\s/g, '')` */
  function RemoveSpaces(s: string): (r: string)
    ensures |r| <= |s|
  {
    if s == [] then []
    else (if IsSpace(s[0]) then [] else [s[0]]) + RemoveSpaces(s[1..])
  }

  /** `RemoveSpaces` keeps exactly the characters that are not white space. */
  lemma {:induction false} RemoveSpacesMembers(s: string)
    ensures forall k :: 0 <= k < |RemoveSpaces(s)| ==> !IsSpace(RemoveSpaces(s)[k])
    ensures forall c :: c in RemoveSpaces(s) <==> c in s && !IsSpace(c)
  {
    if s != [] {
      RemoveSpacesMembers(s[1..]);
      var head := if IsSpace(s[0]) then [] else [s[0]];
      assert RemoveSpaces(s) == head + RemoveSpaces(s[1..]);
      assert s == [s[0]] + s[1..];
    }
  }

  /** A string without white space is left as it is. */
  lemma {:induction false} RemoveSpacesWithoutSpaces(s: string)
    requires forall k :: 0 <= k < |s| ==> !IsSpace(s[k])
    ensures RemoveSpaces(s) == s
  {
    if s != [] {
      RemoveSpacesWithoutSpaces(s[1..]);
      assert [s[0]] + s[1..] == s;
    }
  }

  /** Joins the parts with the separator between them: the inverse of `Split`. */
  function Join(parts: seq<string>, sep: char): string
    requires |parts| >= 1
  {
    if |parts| == 1 then parts[0] else parts[0] + [sep] + Join(parts[1..], sep)
  }

  /** `String.prototype.split` with a one-character separator: the pieces between
      the separators, in order; a string without the separator is one piece. */
  function Split(s: string, sep: char): (parts: seq<string>)
    ensures |parts| >= 1
    decreases |s|
  {
    if sep in s then
      var i := IndexOf(s, sep);
      [s[..i]] + Split(s[i + 1..], sep)
    else [s]
  }

  /** No piece of a split contains the separator. */
  lemma {:induction false} SplitPiecesLackSeparator(s: string, sep: char)
    ensures forall k :: 0 <= k < |Split(s, sep)| ==> sep !in Split(s, sep)[k]
    decreases |s|
  {
    if sep in s {
      var i := IndexOf(s, sep);
      SplitPiecesLackSeparator(s[i + 1..], sep);
    }
  }

  /** Joining the pieces of a split gives back the string. */
  lemma {:induction false} JoinSplit(s: string, sep: char)
    ensures Join(Split(s, sep), sep) == s
    decreases |s|
  {
    if sep in s {
      var i := IndexOf(s, sep);
      var parts := Split(s, sep);
      var tail := Split(s[i + 1..], sep);
      JoinSplit(s[i + 1..], sep);
      assert parts == [s[..i]] + tail;
      assert parts[0] == s[..i] && parts[1..] == tail;
      assert Join(parts, sep) == s[..i] + [sep] + Join(tail, sep);
      assert s == s[..i] + [sep] + s[i + 1..];
    }
  }

  /** Splitting the join of separator-free pieces gives back the pieces. */
  lemma {:induction false} SplitJoin(parts: seq<string>, sep: char)
    requires |parts| >= 1
    requires forall k :: 0 <= k < |parts| ==> sep !in parts[k]
    ensures Split(Join(parts, sep), sep) == parts
    decreases |parts|
  {
    var s := Join(parts, sep);
    if |parts| == 1 {
    } else {
      var p := parts[0];
      var rest := Join(parts[1..], sep);
      assert s == p + [sep] + rest;
      assert s[|p|] == sep;
      assert s[..|p|] == p;
      assert IndexOf(s, sep) == |p|;
      assert s[|p| + 1..] == rest;
      SplitJoin(parts[1..], sep);
    }
  }

  /** Splitting where the first separator is at index `i`. */
  lemma SplitAt(s: string, sep: char, i: nat)
    requires i < |s| && s[i] == sep && sep !in s[..i]
    ensures Split(s, sep) == [s[..i]] + Split(s[i + 1..], sep)
  {
    assert IndexOf(s, sep) == i;
  }

  /** `s.split(/\r?\n/)`: the separator is a line feed together with a carriage
      return right before it, if there is one. */
  function SplitLines(s: string): (parts: seq<string>)
    ensures |parts| >= 1
    decreases |s|
  {
    if '\n' in s then
      var i := IndexOf(s, '\n');
      var cut := if i > 0 && s[i - 1] == '\r' then i - 1 else i;
      [s[..cut]] + SplitLines(s[i + 1..])
    else [s]
  }

  /** Without carriage returns, `SplitLines` splits at every line feed. */
  lemma {:induction false} SplitLinesWithoutCarriageReturn(s: string)
    requires '\r' !in s
    ensures SplitLines(s) == Split(s, '\n')
    decreases |s|
  {
    if '\n' in s {
      var i := IndexOf(s, '\n');
      if i > 0 { assert s[i - 1] in s; }
      assert s == s[..i + 1] + s[i + 1..];
      SplitLinesWithoutCarriageReturn(s[i + 1..]);
    }
  }

  /** Every character of a line is a character of the text. */
  lemma {:induction false} SplitLinesChars(s: string, i: nat, k: nat)
    requires i < |SplitLines(s)| && k < |SplitLines(s)[i]|
    ensures SplitLines(s)[i][k] in s
    decreases |s|
  {
    if '\n' in s {
      var j := IndexOf(s, '\n');
      var cut := if j > 0 && s[j - 1] == '\r' then j - 1 else j;
      assert SplitLines(s) == [s[..cut]] + SplitLines(s[j + 1..]);
      if i == 0 {
        assert SplitLines(s)[0][k] == s[k];
      } else {
        SplitLinesChars(s[j + 1..], i - 1, k);
        var c := SplitLines(s)[i][k];
        assert c in s[j + 1..];
        var m :| 0 <= m < |s[j + 1..]| && s[j + 1..][m] == c;
        assert s[j + 1 + m] == c;
      }
    }
  }

  /** `length` of a JavaScript string: characters outside the Basic Multilingual
      Plane take two UTF-16 code units. */
  function Utf16Length(s: string): (n: nat)
    ensures |s| <= n <= 2 * |s|
  {
    if s == [] then 0 else (if (s[0] as int) > 0xFFFF then 2 else 1) + Utf16Length(s[1..])
  }
}
