/** `extractImageReferences` (src/lib/ocrProcessor.ts:280-292): the file names of the
    `<attached: NAME.EXT>` references of a chat export, where EXT is an image extension,
    matched by `/<attached:\s*([\w\-\.]+\.(?:jpg|jpeg|png|gif|webp))\s*>/gi`, without
    repeats and in the order they are first met. */
module Attachments {
  import opened Wrappers
  import opened Seqs
  import opened JsString
  import opened Scan

  /** The text that opens a reference; under the `i` flag its letters match in either
      case. */
  const Opening: string := "<attached:"

  /** The alternatives of the extension group, in the order the engine tries them. */
  const Extensions: seq<string> := ["jpg", "jpeg", "png", "gif", "webp"]

  /** `[\w\-\.]` */
  predicate IsNameChar(c: char) { IsWordChar(c) || c == '-' || c == '.' }

  /** Greedy `[\w\-\.]*` from `j`: the index just past the run of name characters. */
  function NameEnd(s: string, j: nat): (e: nat)
    requires j <= |s|
    ensures j <= e <= |s|
    ensures forall k :: j <= k < e ==> IsNameChar(s[k])
    ensures e == |s| || !IsNameChar(s[e])
    decreases |s| - j
  {
    if j < |s| && IsNameChar(s[j]) then NameEnd(s, j + 1) else j
  }

  /** `\s*>` at `c`. Giving white space back cannot help, since `>` must follow. */
  predicate ClosesAt(s: string, c: nat)
    requires c <= |s|
  {
    SkipSpaces(s, c) < |s| && s[SkipSpaces(s, c)] == '>'
  }

  /** The alternative `ext` of the extension group matches after the `.` at `n`, and
      `\s*>` matches after it. */
  predicate ExtensionFits(s: string, n: nat, ext: string) {
    OccursAtIgnoringCase(s, n + 1, ext) && ClosesAt(s, n + 1 + |ext|)
  }

  /** The first of the alternatives `exts` that fits after the `.` at `n`. */
  function FirstExtension(s: string, n: nat, exts: seq<string>): (r: Option<string>)
    ensures r.Some? ==> r.value in exts && ExtensionFits(s, n, r.value)
  {
    if exts == [] then None
    else if ExtensionFits(s, n, exts[0]) then Some(exts[0])
    else FirstExtension(s, n, exts[1..])
  }

  /** `\.(?:jpg|jpeg|png|gif|webp)\s*>` at `n`: the alternative the engine settles on,
      trying them in order. */
  function ExtensionAt(s: string, n: nat): (r: Option<string>)
    ensures r.Some? ==> n < |s| && s[n] == '.' && r.value in Extensions && ExtensionFits(s, n, r.value)
  {
    if n < |s| && s[n] == '.' then FirstExtension(s, n, Extensions) else None
  }

  /** An alternative that fits is found by the search through any list holding it. */
  lemma {:induction false} FirstExtensionFinds(s: string, n: nat, exts: seq<string>, ext: string)
    requires ext in exts && ExtensionFits(s, n, ext)
    ensures FirstExtension(s, n, exts).Some?
  {
    if !ExtensionFits(s, n, exts[0]) {
      assert ext in exts[1..];
      FirstExtensionFinds(s, n, exts[1..], ext);
    }
  }

  /** A `.` followed by an alternative that fits is where an extension is found. */
  lemma ExtensionAtFinds(s: string, n: nat, ext: string)
    requires n < |s| && s[n] == '.' && ext in Extensions && ExtensionFits(s, n, ext)
    ensures ExtensionAt(s, n).Some?
  {
    FirstExtensionFinds(s, n, Extensions, ext);
  }

  /** `[\w\-\.]+` first takes the whole run of name characters from `b` and then gives
      them back one at a time: the position of the `.` after the longest prefix of the
      run, of at least one character, that the extension and `\s*>` can follow. */
  function Backtrack(s: string, b: nat): (m: Option<nat>)
    requires b <= |s|
    ensures m.Some? ==> b < m.value <= NameEnd(s, b) && ExtensionAt(s, m.value).Some?
  {
    GreedyWhere(NameEnd(s, b), b + 1, (n: nat) => ExtensionAt(s, n).Some?)
  }

  /** Backtracking finds a `.` followed by a fitting extension whenever the run has
      one past its first character. */
  lemma BacktrackFinds(s: string, b: nat, m: nat)
    requires b <= |s| && b < m <= NameEnd(s, b) && ExtensionAt(s, m).Some?
    ensures Backtrack(s, b).Some?
  {
    GreedyWhereFinds(NameEnd(s, b), b + 1, m, (n: nat) => ExtensionAt(s, n).Some?);
  }

  /** One match: where it starts, the captured file name, and where it ends (past `>`). */
  datatype Reference = Reference(start: nat, nameStart: nat, nameEnd: nat, end: nat)

  /** `([\w\-\.]+\.(?:jpg|jpeg|png|gif|webp))\s*>` at `b`: the end of the captured
      name, if the rest of a reference matches there. */
  function CaptureEnd(s: string, b: nat): (c: Option<nat>)
    requires b <= |s|
    ensures c.Some? ==> b < c.value <= |s| && ClosesAt(s, c.value)
  {
    match Backtrack(s, b)
    case None => None
    case Some(m) => Some(m + 1 + |ExtensionAt(s, m).value|)
  }

  /** The match tried at `p`. `\s*` before the name takes the whole run of white space,
      since no name character is white space. */
  function MatchAt(s: string, p: nat): (r: Option<Reference>)
    ensures r.Some? ==> r.value.start == p < r.value.nameStart < r.value.nameEnd < r.value.end <= |s|
  {
    if OccursAtIgnoringCase(s, p, Opening) then
      var b := SkipSpaces(s, p + |Opening|);
      match CaptureEnd(s, b)
      case None => None
      case Some(c) => Some(Reference(p, b, c, SkipSpaces(s, c) + 1))
    else None
  }

  /** The global scan from `from`: each match is searched for where the one before it
      ended. */
  function References(s: string, from: nat): (rs: seq<Reference>)
    requires from <= |s|
    ensures forall k :: 0 <= k < |rs| ==> from <= rs[k].start && MatchAt(s, rs[k].start) == Some(rs[k])
    ensures forall k :: 0 < k < |rs| ==> rs[k - 1].end <= rs[k].start
    decreases |s| - from
  {
    match Leftmost(|s|, from, p => MatchAt(s, p))
    case None => []
    case Some((p, r)) =>
      assert MatchAt(s, p) == Some(r);
      var rest := References(s, r.end);
      ConsReferences(s, from, r, rest);
      [r] + rest
  }

  /** A match followed by the matches after its end keeps the order of `References`. */
  lemma ConsReferences(s: string, from: nat, r: Reference, rest: seq<Reference>)
    requires from <= r.start && r.start < r.end && MatchAt(s, r.start) == Some(r)
    requires forall k :: 0 <= k < |rest| ==> r.end <= rest[k].start && MatchAt(s, rest[k].start) == Some(rest[k])
    requires forall k :: 0 < k < |rest| ==> rest[k - 1].end <= rest[k].start
    ensures forall k :: 0 <= k < |[r] + rest| ==> from <= ([r] + rest)[k].start && MatchAt(s, ([r] + rest)[k].start) == Some(([r] + rest)[k])
    ensures forall k :: 0 < k < |[r] + rest| ==> ([r] + rest)[k - 1].end <= ([r] + rest)[k].start
  {
    ConsReferencesEach(s, from, r, rest, [r] + rest);
    ConsReferencesOrdered(r, rest, [r] + rest);
  }

  lemma ConsReferencesEach(s: string, from: nat, r: Reference, rest: seq<Reference>, rs: seq<Reference>)
    requires rs == [r] + rest
    requires from <= r.start && MatchAt(s, r.start) == Some(r)
    requires forall k :: 0 <= k < |rest| ==> r.end <= rest[k].start && MatchAt(s, rest[k].start) == Some(rest[k])
    requires r.start < r.end
    ensures forall k :: 0 <= k < |rs| ==> from <= rs[k].start && MatchAt(s, rs[k].start) == Some(rs[k])
  {
    forall k | 0 < k < |rs|
      ensures rs[k] == rest[k - 1]
    {
    }
  }

  lemma ConsReferencesOrdered(r: Reference, rest: seq<Reference>, rs: seq<Reference>)
    requires rs == [r] + rest
    requires forall k :: 0 <= k < |rest| ==> r.end <= rest[k].start
    requires forall k :: 0 < k < |rest| ==> rest[k - 1].end <= rest[k].start
    ensures forall k :: 0 < k < |rs| ==> rs[k - 1].end <= rs[k].start
  {
    forall k | 0 < k < |rs|
      ensures rs[k - 1].end <= rs[k].start
    {
      assert rs[k] == rest[k - 1];
      if k > 1 {
        assert rs[k - 1] == rest[k - 2];
      }
    }
  }

  /** The file name a match captures. */
  function Name(s: string, r: Reference): string
    requires r.nameStart <= r.nameEnd <= |s|
  {
    s[r.nameStart..r.nameEnd]
  }

  /** The captures of the matches, in order: `matches.map(match => match[1])`. */
  function Names(s: string): (names: seq<string>)
    ensures |names| == |References(s, 0)|
    ensures forall k :: 0 <= k < |References(s, 0)| ==> names[k] == Name(s, References(s, 0)[k])
  {
    var rs := References(s, 0);
    seq(|rs|, k requires 0 <= k < |rs| => Name(s, rs[k]))
  }

  /** `extractImageReferences(chatText)` */
  function ExtractImageReferences(chatText: string): seq<string> {
    Dedup(Names(chatText))
  }

  /** A name character is neither white space nor `>`. */
  lemma NameCharIsNotSpace(c: char)
    requires IsNameChar(c)
    ensures !IsSpace(c) && c != '>' && c != '<'
  {
  }

  /** Everything from `b` to `c` is a name character, so the run from `b` reaches `c`. */
  lemma NameRunReaches(s: string, b: nat, c: nat)
    requires b <= c <= |s| && forall k :: b <= k < c ==> IsNameChar(s[k])
    ensures c <= NameEnd(s, b)
  {
  }

  /** `\s*>` cannot follow a name character, so a run of name characters that is
      followed by it is the whole run. */
  lemma ClosedRunEnds(s: string, b: nat, c: nat)
    requires b <= c <= |s| && c <= NameEnd(s, b) && ClosesAt(s, c)
    ensures c == NameEnd(s, b)
  {
  }

  /** The name from `b` to `c` ends with a `.` and an image extension, in either case,
      and has at least one character before the `.`. */
  predicate EndsInImageExtension(s: string, b: nat, c: nat) {
    exists ext :: ext in Extensions && b < c - |ext| - 1 < |s|
      && s[c - |ext| - 1] == '.' && OccursAtIgnoringCase(s, c - |ext|, ext)
  }

  /** The extensions are spelled in lower-case ASCII letters. */
  lemma ExtensionLetters(ext: string)
    requires ext in Extensions
    ensures forall k :: 0 <= k < |ext| ==> 'a' <= ext[k] <= 'z'
  {
  }

  /** Characters matching an extension's letters under the `i` flag are name
      characters. */
  lemma ExtensionIsName(s: string, n: nat, ext: string)
    requires ext in Extensions && OccursAtIgnoringCase(s, n + 1, ext)
    ensures forall k :: n + 1 <= k < n + 1 + |ext| ==> IsNameChar(s[k])
  {
    ExtensionLetters(ext);
    forall k | n + 1 <= k < n + 1 + |ext| ensures IsNameChar(s[k]) {
      assert SameIgnoringCase(s[n + 1 + (k - (n + 1))], ext[k - (n + 1)]);
    }
  }

  /** The `.` at `m` followed by the alternative `ext` ends a name that starts before
      `m`. */
  lemma DotExtensionEndsName(s: string, b: nat, m: nat, ext: string, c: nat)
    requires b < m < |s| && s[m] == '.' && ext in Extensions && OccursAtIgnoringCase(s, m + 1, ext)
    requires c == m + 1 + |ext|
    ensures EndsInImageExtension(s, b, c)
  {
    assert c - |ext| - 1 == m;
  }

  /** The extension a name ends in, and the `.` before it. */
  lemma ImageExtensionDot(s: string, b: nat, c: nat) returns (ext: string, m: nat)
    requires EndsInImageExtension(s, b, c)
    ensures ext in Extensions && b < m < |s| && m + 1 + |ext| == c
    ensures s[m] == '.' && OccursAtIgnoringCase(s, m + 1, ext)
  {
    ext :| ext in Extensions && b < c - |ext| - 1 < |s|
      && s[c - |ext| - 1] == '.' && OccursAtIgnoringCase(s, c - |ext|, ext);
    m := c - |ext| - 1;
  }

  /** An extension ending at `e` and followed by `\s*>` fits after the `.` before it. */
  lemma DotBeforeExtension(s: string, m: nat, ext: string, e: nat)
    requires m + 1 + |ext| == e <= |s| && OccursAtIgnoringCase(s, m + 1, ext) && ClosesAt(s, e)
    ensures ExtensionFits(s, m, ext)
  {
  }

  /** The captured name is the whole run of name characters from `b`: backtracking
      never shortens it. It ends with a `.` and an image extension and is followed by
      `\s*>`. */
  lemma CaptureIsWholeRun(s: string, b: nat)
    requires b <= |s| && CaptureEnd(s, b).Some?
    ensures CaptureEnd(s, b).value == NameEnd(s, b)
    ensures ClosesAt(s, NameEnd(s, b)) && EndsInImageExtension(s, b, NameEnd(s, b))
  {
    var e := NameEnd(s, b);
    var m := Backtrack(s, b).value;
    var ext := ExtensionAt(s, m).value;
    var c := m + 1 + |ext|;
    ExtensionIsName(s, m, ext);
    NameRunReaches(s, b, c);
    ClosedRunEnds(s, b, c);
    DotExtensionEndsName(s, b, m, ext, c);
  }

  /** Conversely, a run of name characters from `b` that ends in an image extension
      and is followed by `\s*>` is captured. */
  lemma WholeRunCaptured(s: string, b: nat)
    requires b <= |s| && ClosesAt(s, NameEnd(s, b)) && EndsInImageExtension(s, b, NameEnd(s, b))
    ensures CaptureEnd(s, b).Some?
  {
    var e := NameEnd(s, b);
    var ext, m := ImageExtensionDot(s, b, e);
    DotBeforeExtension(s, m, ext, e);
    ExtensionAtFinds(s, m, ext);
    BacktrackFinds(s, b, m);
  }

  /** A match is `<attached:`, white space, the whole run of name characters after it,
      which ends in an image extension, then `\s*>`. */
  lemma NameIsWholeRun(s: string, p: nat)
    requires MatchAt(s, p).Some?
    ensures var r := MatchAt(s, p).value;
      && OccursAtIgnoringCase(s, p, Opening)
      && r.nameStart == SkipSpaces(s, p + |Opening|)
      && r.nameEnd == NameEnd(s, r.nameStart)
      && ClosesAt(s, r.nameEnd)
      && EndsInImageExtension(s, r.nameStart, r.nameEnd)
      && r.end == SkipSpaces(s, r.nameEnd) + 1
  {
    CaptureIsWholeRun(s, SkipSpaces(s, p + |Opening|));
  }

  /** Conversely, `<attached:` followed by white space and a run of name characters
      that ends in an image extension and is followed by `\s*>` is a match. */
  lemma WholeRunMatches(s: string, p: nat)
    requires OccursAtIgnoringCase(s, p, Opening)
    requires var b := SkipSpaces(s, p + |Opening|);
      ClosesAt(s, NameEnd(s, b)) && EndsInImageExtension(s, b, NameEnd(s, b))
    ensures MatchAt(s, p).Some?
  {
    WholeRunCaptured(s, SkipSpaces(s, p + |Opening|));
  }

  /** A character that matches `d` under the `i` flag is `<` only if `d` is. */
  lemma AngleIgnoringCase(c: char, d: char)
    requires SameIgnoringCase(c, d)
    ensures c == '<' <==> d == '<'
  {
  }

  /** `<attached:` starts with `<` and has no other. */
  lemma OpeningAngles(s: string, p: nat)
    requires OccursAtIgnoringCase(s, p, Opening)
    ensures s[p] == '<'
    ensures forall q :: p < q < p + |Opening| ==> s[q] != '<'
  {
    AngleIgnoringCase(s[p + 0], Opening[0]);
    forall q | p < q < p + |Opening| ensures s[q] != '<' {
      AngleIgnoringCase(s[p + (q - p)], Opening[q - p]);
    }
  }

  /** After `<attached:`, white space, a run of name characters, white space and the
      closing `>` hold no `<`. */
  lemma ReferenceHasOneAngle(s: string, p: nat, b: nat, e: nat)
    requires OccursAtIgnoringCase(s, p, Opening)
    requires b == SkipSpaces(s, p + |Opening|) && e == NameEnd(s, b) && ClosesAt(s, e)
    ensures forall q :: p < q <= SkipSpaces(s, e) ==> s[q] != '<'
  {
    OpeningAngles(s, p);
    var t := SkipSpaces(s, e);
    forall q | p + |Opening| <= q <= t ensures s[q] != '<' {
      if q < b || e <= q < t {
        assert IsSpace(s[q]);
      } else if q < e {
        NameCharIsNotSpace(s[q]);
      }
    }
  }

  /** No match starts inside another: `<` occurs in a match only at its start. */
  lemma NoMatchInside(s: string, p: nat, q: nat)
    requires MatchAt(s, p).Some? && p < q < MatchAt(s, p).value.end
    ensures MatchAt(s, q).None?
  {
    var r := MatchAt(s, p).value;
    NameIsWholeRun(s, p);
    ReferenceHasOneAngle(s, p, r.nameStart, r.nameEnd);
    if MatchAt(s, q).Some? {
      NameIsWholeRun(s, q);
      OpeningAngles(s, q);
      assert false;
    }
  }

  /** The global scan misses no match: every position where a reference matches is
      the start of a match of the scan. */
  lemma {:induction false} EveryReferenceScanned(s: string, from: nat, p: nat)
    requires from <= p && MatchAt(s, p).Some?
    ensures MatchAt(s, p).value in References(s, from)
    decreases |s| - from
  {
    var rs := References(s, from);
    var f := (q: nat) => MatchAt(s, q);
    assert p < |s| && f(p).Some?;
    match Leftmost(|s|, from, f)
    case None =>
      assert false;
    case Some((q, r)) =>
      assert rs[0] == r;
      if q != p {
        if p < q {
          assert false;
        }
        if p < r.end {
          NoMatchInside(s, q, p);
          assert false;
        }
        EveryReferenceScanned(s, r.end, p);
        var rest := References(s, r.end);
        assert rs == [r] + rest;
      }
  }

  /** Every name the scan captures comes from a position where a reference matches. */
  lemma ScannedNameMatches(chatText: string, k: nat)
    requires k < |Names(chatText)|
    ensures var p := References(chatText, 0)[k].start;
      p < |chatText| && MatchAt(chatText, p).Some? && Names(chatText)[k] == Name(chatText, MatchAt(chatText, p).value)
  {
  }

  /** The name captured at any position where a reference matches is among the names
      the scan captures. */
  lemma MatchedNameScanned(chatText: string, p: nat)
    requires MatchAt(chatText, p).Some?
    ensures Name(chatText, MatchAt(chatText, p).value) in Names(chatText)
  {
    var rs := References(chatText, 0);
    var r := MatchAt(chatText, p).value;
    EveryReferenceScanned(chatText, 0, p);
    var k :| 0 <= k < |rs| && rs[k] == r;
    assert Names(chatText)[k] == Name(chatText, rs[k]);
  }

  /** A name is returned exactly when some reference in the text captures it. */
  lemma ImageReferencesMembers(chatText: string, name: string)
    ensures name in ExtractImageReferences(chatText) <==>
      exists p :: 0 <= p < |chatText| && MatchAt(chatText, p).Some? && name == Name(chatText, MatchAt(chatText, p).value)
  {
    var names := Names(chatText);
    DedupSameElements(names, name);
    if name in names {
      var k :| 0 <= k < |names| && names[k] == name;
      ScannedNameMatches(chatText, k);
    }
    if p :| 0 <= p < |chatText| && MatchAt(chatText, p).Some? && name == Name(chatText, MatchAt(chatText, p).value) {
      MatchedNameScanned(chatText, p);
    }
  }

  /** The names returned are distinct and in the order of their first reference. */
  lemma ImageReferencesUnique(chatText: string)
    ensures var names := ExtractImageReferences(chatText);
      forall i, j :: 0 <= i < j < |names| ==> names[i] != names[j]
    ensures var names := ExtractImageReferences(chatText);
      forall i, j :: 0 <= i < j < |names| ==> IndexOf(Names(chatText), names[i]) < IndexOf(Names(chatText), names[j])
  {
    DedupNoDuplicates(Names(chatText));
    DedupFirstSeenOrder(Names(chatText));
  }
}
