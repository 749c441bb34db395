/** Character classes and string helpers shared by the order-extraction code:
    the JavaScript regular-expression classes `\s`, `\d` and `\w`, and the
    string built-ins `trim`, `toLowerCase`, `includes`, `split` and
    `replace(/\s+/g, ' ')`, each written out for `seq<char>`. */
module Text {

  /** JavaScript's `\s` (WhiteSpace plus LineTerminator).  It is also exactly
      the set of characters `String.prototype.trim` removes. */
  predicate IsSpace(c: char) {
    c == ' ' || c == '\t' || c == '\n' || c == '\r' || c == '\U{B}' || c == '\U{C}'
    || c == '\U{A0}' || c == '\U{1680}' || ('\U{2000}' <= c <= '\U{200A}')
    || c == '\U{2028}' || c == '\U{2029}' || c == '\U{202F}' || c == '\U{205F}'
    || c == '\U{3000}' || c == '\U{FEFF}'
  }

  /** The characters after which a multiline `^` matches. */
  predicate IsLineTerminator(c: char) {
    c == '\n' || c == '\r' || c == '\U{2028}' || c == '\U{2029}'
  }

  /** `\d` */
  predicate IsDigit(c: char) {
    '0' <= c <= '9'
  }

  /** `\w`, the class that decides where `\b` sits. */
  predicate IsWordChar(c: char) {
    ('a' <= c <= 'z') || ('A' <= c <= 'Z') || IsDigit(c) || c == '_'
  }

  predicate AllSpace(s: string) {
    forall k | 0 <= k < |s| :: IsSpace(s[k])
  }

  predicate AllDigits(s: string) {
    forall k | 0 <= k < |s| :: IsDigit(s[k])
  }

  predicate NoSpace(s: string) {
    forall k | 0 <= k < |s| :: !IsSpace(s[k])
  }

  /** Neither the first nor the last character is white space. */
  predicate NoEdgeSpace(s: string) {
    s == [] || (!IsSpace(s[0]) && !IsSpace(s[|s| - 1]))
  }

  /** `t` occurs in `s` at index `i`. */
  predicate StartsAt(s: string, i: nat, t: string) {
    i + |t| <= |s| && s[i..i + |t|] == t
  }

  /** `s.includes(t)` */
  predicate Contains(s: string, t: string) {
    exists i: nat | i <= |s| :: StartsAt(s, i, t)
  }

  /** The end of the longest run of `p`-characters that starts at `i`: a
      greedy `[...]*` quantifier.  That the run holds only `p`-characters is
      `SkipWhileRun`. */
  function SkipWhile(s: string, i: nat, p: char -> bool): (j: nat)
    requires i <= |s|
    ensures i <= j <= |s|
    ensures j == |s| || !p(s[j])
    decreases |s| - i
  {
    if i < |s| && p(s[i]) then SkipWhile(s, i + 1, p) else i
  }

  /** Every character of the run is a `p`-character. */
  lemma {:induction false} SkipWhileRun(s: string, i: nat, p: char -> bool)
    requires i <= |s|
    ensures forall k | i <= k < SkipWhile(s, i, p) :: p(s[k])
    decreases |s| - i
  {
    if i < |s| && p(s[i]) {
      SkipWhileRun(s, i + 1, p);
    }
  }

  /** A run is determined by where it stops: any `j` with only
      `p`-characters before it and none at it is the end `SkipWhile` finds. */
  lemma {:induction false} SkipWhileUnique(s: string, i: nat, p: char -> bool, j: nat)
    requires i <= j <= |s|
    requires forall k | i <= k < j :: p(s[k])
    requires j == |s| || !p(s[j])
    ensures SkipWhile(s, i, p) == j
    decreases j - i
  {
    if i < j {
      SkipWhileUnique(s, i + 1, p, j);
    }
  }

  /** A run of white space, as a slice. */
  lemma SpaceRunSlice(s: string, i: nat)
    requires i <= |s|
    ensures AllSpace(s[i..SkipWhile(s, i, IsSpace)])
  {
    var j := SkipWhile(s, i, IsSpace);
    SkipWhileRun(s, i, IsSpace);
    assert forall k | 0 <= k < j - i :: s[i..j][k] == s[i + k];
  }

  /** A run of digits, as a slice. */
  lemma DigitRunSlice(s: string, i: nat)
    requires i <= |s|
    ensures AllDigits(s[i..SkipWhile(s, i, IsDigit)])
  {
    var j := SkipWhile(s, i, IsDigit);
    SkipWhileRun(s, i, IsDigit);
    assert forall k | 0 <= k < j - i :: s[i..j][k] == s[i + k];
  }

  /** A single space before a character that is not white space is a whole
      run of white space. */
  lemma SingleSpaceRun(s: string, i: nat)
    requires i + 1 < |s| && s[i] == ' ' && !IsSpace(s[i + 1])
    ensures SkipWhile(s, i, IsSpace) == i + 1
  {
    SkipWhileUnique(s, i, IsSpace, i + 1);
  }

  /** The digit string `q` standing at `b` and followed by a non-digit is a
      whole run of digits. */
  lemma DigitRunOf(s: string, b: nat, q: string)
    requires b + |q| < |s| && s[b..b + |q|] == q && AllDigits(q) && !IsDigit(s[b + |q|])
    ensures SkipWhile(s, b, IsDigit) == b + |q|
  {
    assert forall k | b <= k < b + |q| :: IsDigit(s[k]) by {
      forall k | b <= k < b + |q|
        ensures IsDigit(s[k])
      {
        assert s[k] == s[b..b + |q|][k - b] == q[k - b];
      }
    }
    SkipWhileUnique(s, b, IsDigit, b + |q|);
  }

  /** A run inside a prefix of `s` ends where it ends in `s`. */
  lemma SkipWhilePrefix(s: string, i: nat, p: char -> bool, n: nat)
    requires i <= |s| && SkipWhile(s, i, p) < n <= |s|
    ensures SkipWhile(s[..n], i, p) == SkipWhile(s, i, p)
  {
    SkipWhileRun(s, i, p);
    SkipWhileUnique(s[..n], i, p, SkipWhile(s, i, p));
  }

  /** A slice is the concatenation of its two halves. */
  lemma SliceConcat(s: string, i: nat, k: nat, j: nat)
    requires i <= k <= j <= |s|
    ensures s[i..k] + s[k..j] == s[i..j]
  {
  }

  /** A non-empty slice is its first character and the rest. */
  lemma SliceCons(s: string, i: nat, j: nat)
    requires i < j <= |s|
    ensures s[i..j] == [s[i]] + s[i + 1..j]
  {
  }

  /** The two halves of a suffix, as slices of the whole. */
  lemma SliceOfSuffix(s: string, i: nat, n: nat)
    requires i + n <= |s|
    ensures s[i..][..n] == s[i..i + n] && s[i..][n..] == s[i + n..]
  {
  }

  predicate NoUpper(s: string) {
    forall k | 0 <= k < |s| :: !('A' <= s[k] <= 'Z')
  }

  /** Lower-casing of one character (ASCII letters only). */
  function LowerChar(c: char): (d: char)
    ensures !('A' <= d <= 'Z')
    ensures IsSpace(d) <==> IsSpace(c)
    ensures IsWordChar(d) <==> IsWordChar(c)
    ensures !('A' <= c <= 'Z') ==> d == c
  {
    if 'A' <= c <= 'Z' then (c as int + 32) as char else c
  }

  /** `s.toLowerCase()` */
  function ToLower(s: string): (r: string)
    ensures |r| == |s|
    ensures forall k | 0 <= k < |s| :: r[k] == LowerChar(s[k])
  {
    seq(|s|, k requires 0 <= k < |s| => LowerChar(s[k]))
  }

  /** Lower-casing leaves a text without capitals as it is. */
  lemma ToLowerNoUpper(s: string)
    requires NoUpper(s)
    ensures ToLower(s) == s
  {
  }

  /** Drops the leading white space. */
  function TrimStart(s: string): (r: string)
    ensures |r| <= |s| && r == s[|s| - |r|..]
    ensures r == [] || !IsSpace(r[0])
    decreases |s|
  {
    if |s| > 0 && IsSpace(s[0]) then TrimStart(s[1..]) else s
  }

  /** What `TrimStart` drops is white space. */
  lemma {:induction false} TrimStartDrops(s: string)
    ensures AllSpace(s[..|s| - |TrimStart(s)|])
    decreases |s|
  {
    if |s| > 0 && IsSpace(s[0]) {
      TrimStartDrops(s[1..]);
      var n := |s| - |TrimStart(s)|;
      forall k | 0 <= k < n ensures IsSpace(s[..n][k]) {
        if k > 0 {
          assert s[..n][k] == s[1..][..n - 1][k - 1];
        }
      }
    }
  }

  /** Drops the trailing white space. */
  function TrimEnd(s: string): (r: string)
    ensures |r| <= |s| && r == s[..|r|]
    ensures AllSpace(s[|r|..])
    ensures r == [] || !IsSpace(r[|r| - 1])
    decreases |s|
  {
    if |s| > 0 && IsSpace(s[|s| - 1]) then TrimEnd(s[..|s| - 1]) else s
  }

  /** `s.trim()`: the piece of `s` left after removing white space at both
      ends. */
  function Trim(s: string): (r: string)
    ensures NoEdgeSpace(r)
  {
    TrimEnd(TrimStart(s))
  }

  /** What trimming leaves is a slice of `s` with only white space around
      it. */
  lemma TrimSlice(s: string) returns (i: nat, j: nat)
    ensures i <= j <= |s| && Trim(s) == s[i..j] && AllSpace(s[..i]) && AllSpace(s[j..])
  {
    var a := TrimStart(s);
    var b := TrimEnd(a);
    TrimStartDrops(s);
    SliceOfSuffix(s, |s| - |a|, |b|);
    i, j := |s| - |a|, |s| - |a| + |b|;
  }

  /** The index of the first `c` in `s`, or `|s|` when there is none. */
  function IndexOf(s: string, c: char): (i: nat)
    ensures i <= |s|
    ensures forall k | 0 <= k < i :: s[k] != c
    ensures i < |s| ==> s[i] == c
  {
    if s == [] || s[0] == c then 0 else 1 + IndexOf(s[1..], c)
  }

  /** `s.split('\n')`: the pieces of `s` between line feeds, empty pieces
      included. */
  function SplitLines(s: string): (r: seq<string>)
    ensures |r| >= 1
    ensures forall k | 0 <= k < |r| :: '\n' !in r[k]
    decreases |s|
  {
    var i := IndexOf(s, '\n');
    if i == |s| then
      assert forall k | 0 <= k < |s| :: s[k] != '\n';
      [s]
    else
      [s[..i]] + SplitLines(s[i + 1..])
  }

  /** The pieces joined back with `sep` between them. */
  function Join(pieces: seq<string>, sep: string): string
    requires |pieces| >= 1
  {
    if |pieces| == 1 then pieces[0] else pieces[0] + sep + Join(pieces[1..], sep)
  }

  /** A join of two or more pieces: the first piece, the separator, then the
      join of the rest. */
  lemma JoinCons(pieces: seq<string>, sep: string)
    requires |pieces| >= 2
    ensures Join(pieces, sep) == pieces[0] + (sep + Join(pieces[1..], sep))
  {
  }

  /** Splitting on line feeds loses nothing: joining the lines with line feeds
      gives the text back. */
  lemma {:induction false} SplitLinesJoin(s: string)
    ensures Join(SplitLines(s), "\n") == s
    decreases |s|
  {
    var i := IndexOf(s, '\n');
    if i < |s| {
      var rest := SplitLines(s[i + 1..]);
      var pieces := [s[..i]] + rest;
      SplitLinesJoin(s[i + 1..]);
      assert SplitLines(s) == pieces;
      assert |pieces| >= 2 && pieces[0] == s[..i] && pieces[1..] == rest;
      assert Join(pieces, "\n") == s[..i] + "\n" + Join(rest, "\n");
      assert s == s[..i] + "\n" + s[i + 1..];
    }
  }

  predicate IsNonSpace(c: char) {
    !IsSpace(c)
  }

  /** `s.split(/\s+/)`: the pieces of `s` between maximal runs of white space;
      a run at either end yields an empty first or last piece. */
  function SplitSpace(s: string): (r: seq<string>)
    ensures |r| >= 1
    ensures forall k | 0 <= k < |r| :: NoSpace(r[k])
    decreases |s|
  {
    var i := SkipWhile(s, 0, IsNonSpace);
    SkipWhileRun(s, 0, IsNonSpace);
    if i == |s| then
      [s]
    else
      var j := SkipWhile(s, i, IsSpace);
      [s[..i]] + SplitSpace(s[j..])
  }

  /** The words of a trimmed, non-empty text are non-empty. */
  lemma {:induction false} SplitSpaceWords(s: string)
    requires s != [] && NoEdgeSpace(s)
    ensures forall k | 0 <= k < |SplitSpace(s)| :: SplitSpace(s)[k] != []
    decreases |s|
  {
    var i := SkipWhile(s, 0, IsNonSpace);
    if i < |s| {
      var j := SkipWhile(s, i, IsSpace);
      SkipWhileRun(s, i, IsSpace);
      assert j < |s|;
      assert s[j..][|s[j..]| - 1] == s[|s| - 1];
      SplitSpaceWords(s[j..]);
    }
  }

  /** `s.replace(/\s+/g, ' ')`: every maximal run of white space becomes one
      space. */
  function CollapseSpace(s: string): (r: string)
    decreases |s|
  {
    if s == [] then
      []
    else if IsSpace(s[0]) then
      var j := SkipWhile(s, 0, IsSpace);
      [' '] + CollapseSpace(s[j..])
    else
      [s[0]] + CollapseSpace(s[1..])
  }

  /** Collapsing never lengthens the text. */
  lemma {:induction false} CollapseSpaceShorter(s: string)
    ensures |CollapseSpace(s)| <= |s|
    decreases |s|
  {
    if s != [] {
      if IsSpace(s[0]) {
        var j := SkipWhile(s, 0, IsSpace);
        CollapseSpaceShorter(s[j..]);
      } else {
        CollapseSpaceShorter(s[1..]);
      }
    }
  }

  /** After collapsing, white space is single spaces, and the text starts
      with white space exactly when the original does. */
  lemma {:induction false} CollapseSpaceSound(s: string)
    ensures SingleSpaced(CollapseSpace(s))
    ensures |s| > 0 ==> |CollapseSpace(s)| > 0 && (IsSpace(CollapseSpace(s)[0]) <==> IsSpace(s[0]))
    decreases |s|
  {
    if s != [] {
      var r := CollapseSpace(s);
      if IsSpace(s[0]) {
        var j := SkipWhile(s, 0, IsSpace);
        var rest := CollapseSpace(s[j..]);
        CollapseSpaceSound(s[j..]);
        assert j < |s| ==> !IsSpace(s[j..][0]);
        assert r == [' '] + rest;
        assert forall k | 1 <= k < |r| :: r[k] == rest[k - 1];
      } else {
        var rest := CollapseSpace(s[1..]);
        CollapseSpaceSound(s[1..]);
        assert r == [s[0]] + rest;
        assert forall k | 1 <= k < |r| :: r[k] == rest[k - 1];
      }
    }
  }

  /** White space inside `s` is only single spaces. */
  predicate SingleSpaced(s: string) {
    (forall k | 0 <= k < |s| :: IsSpace(s[k]) ==> s[k] == ' ')
    && (forall k | 0 <= k < |s| - 1 :: !(IsSpace(s[k]) && IsSpace(s[k + 1])))
  }

  /** A name in canonical form: no white space at either end, and inside only
      single spaces. */
  predicate IsCanonicalName(s: string) {
    NoEdgeSpace(s) && SingleSpaced(s)
  }

  /** The characters of `s` that do not satisfy `p`, in order. */
  function Without(s: string, p: char -> bool): (r: string)
    ensures |r| <= |s|
    decreases |s|
  {
    if s == [] then [] else (if p(s[0]) then [] else [s[0]]) + Without(s[1..], p)
  }

  /** No `p`-character is left. */
  lemma {:induction false} WithoutOmits(s: string, p: char -> bool)
    ensures forall k | 0 <= k < |Without(s, p)| :: !p(Without(s, p)[k])
    decreases |s|
  {
    if s != [] {
      WithoutOmits(s[1..], p);
    }
  }

  /** A kept character at the front of a slice stays in front. */
  lemma WithoutSliceKeep(s: string, i: nat, j: nat, p: char -> bool)
    requires i < j <= |s| && !p(s[i])
    ensures Without(s[i..j], p) == [s[i]] + Without(s[i + 1..j], p)
  {
    assert s[i..j][0] == s[i] && s[i..j][1..] == s[i + 1..j];
  }

  /** A slice with no `p`-character loses nothing. */
  lemma {:induction false} WithoutSliceNone(s: string, i: nat, j: nat, p: char -> bool)
    requires i <= j <= |s|
    requires forall m | i <= m < j :: !p(s[m])
    ensures Without(s[i..j], p) == s[i..j]
    decreases j - i
  {
    if i < j {
      WithoutSliceKeep(s, i, j, p);
      WithoutSliceNone(s, i + 1, j, p);
      SliceCons(s, i, j);
    }
  }

  /** A leading run of `p`-characters in a slice disappears. */
  lemma {:induction false} WithoutSliceDrop(s: string, i: nat, k: nat, j: nat, p: char -> bool)
    requires i <= k <= j <= |s|
    requires forall m | i <= m < k :: p(s[m])
    ensures Without(s[i..j], p) == Without(s[k..j], p)
    decreases k - i
  {
    if i < k {
      assert s[i..j][0] == s[i] && s[i..j][1..] == s[i + 1..j];
      WithoutSliceDrop(s, i + 1, k, j, p);
    }
  }

  lemma {:induction false} WithoutConcat(a: string, b: string, p: char -> bool)
    ensures Without(a + b, p) == Without(a, p) + Without(b, p)
    decreases |a|
  {
    if a == [] {
      assert a + b == b;
    } else {
      assert (a + b)[0] == a[0] && (a + b)[1..] == a[1..] + b;
      WithoutConcat(a[1..], b, p);
    }
  }

  /** Nothing is left of a text made only of `p`-characters. */
  lemma {:induction false} WithoutAll(s: string, p: char -> bool)
    requires forall k | 0 <= k < |s| :: p(s[k])
    ensures Without(s, p) == []
    decreases |s|
  {
    if s != [] {
      assert p(s[0]);
      WithoutAll(s[1..], p);
    }
  }

  /** A text with no `p`-character loses nothing. */
  lemma {:induction false} WithoutNothing(s: string, p: char -> bool)
    requires forall k | 0 <= k < |s| :: !p(s[k])
    ensures Without(s, p) == s
    decreases |s|
  {
    if s != [] {
      assert !p(s[0]);
      WithoutNothing(s[1..], p);
      assert s == [s[0]] + s[1..];
    }
  }

  /** Collapsing white space keeps every other character, in order. */
  lemma {:induction false} CollapseSpaceKeepsWords(s: string)
    ensures Without(CollapseSpace(s), IsSpace) == Without(s, IsSpace)
    decreases |s|
  {
    if s != [] {
      if IsSpace(s[0]) {
        var j := SkipWhile(s, 0, IsSpace);
        SkipWhileRun(s, 0, IsSpace);
        CollapseSpaceKeepsWords(s[j..]);
        assert s == s[..j] + s[j..];
        WithoutConcat(s[..j], s[j..], IsSpace);
        WithoutAll(s[..j], IsSpace);
        WithoutConcat([' '], CollapseSpace(s[j..]), IsSpace);
      } else {
        CollapseSpaceKeepsWords(s[1..]);
        WithoutConcat([s[0]], CollapseSpace(s[1..]), IsSpace);
      }
    }
  }

  lemma {:induction false} TrimStartKeepsWords(s: string)
    ensures Without(TrimStart(s), IsSpace) == Without(s, IsSpace)
    decreases |s|
  {
    if |s| > 0 && IsSpace(s[0]) {
      TrimStartKeepsWords(s[1..]);
    }
  }

  lemma {:induction false} TrimEndKeepsWords(s: string)
    ensures Without(TrimEnd(s), IsSpace) == Without(s, IsSpace)
    decreases |s|
  {
    if |s| > 0 && IsSpace(s[|s| - 1]) {
      var init := s[..|s| - 1];
      TrimEndKeepsWords(init);
      assert s == init + [s[|s| - 1]];
      WithoutConcat(init, [s[|s| - 1]], IsSpace);
    }
  }

  /** Trimming removes only white space. */
  lemma TrimKeepsWords(s: string)
    ensures Without(Trim(s), IsSpace) == Without(s, IsSpace)
  {
    TrimStartKeepsWords(s);
    TrimEndKeepsWords(TrimStart(s));
  }

  /** Trimming a single-spaced text gives a canonical one. */
  lemma TrimSingleSpaced(s: string)
    requires SingleSpaced(s)
    ensures IsCanonicalName(Trim(s))
  {
    var i, j := TrimSlice(s);
    SingleSpacedSlice(s, i, j);
  }

  /** Every slice of a single-spaced text is single-spaced. */
  lemma SingleSpacedSlice(s: string, i: nat, j: nat)
    requires i <= j <= |s| && SingleSpaced(s)
    ensures SingleSpaced(s[i..j])
  {
    var t := s[i..j];
    forall k | 0 <= k < |t| ensures IsSpace(t[k]) ==> t[k] == ' ' {
      assert t[k] == s[i + k];
    }
    forall k | 0 <= k < |t| - 1 ensures !(IsSpace(t[k]) && IsSpace(t[k + 1])) {
      assert t[k] == s[i + k] && t[k + 1] == s[i + k + 1];
    }
  }

  /** A single-spaced text has nothing to collapse. */
  lemma {:induction false} CollapseSingleSpaced(s: string)
    requires SingleSpaced(s)
    ensures CollapseSpace(s) == s
    decreases |s|
  {
    if s != [] {
      assert forall k | 0 <= k < |s| - 1 :: s[1..][k] == s[k + 1];
      CollapseSingleSpaced(s[1..]);
      if IsSpace(s[0]) {
        if |s| > 1 {
          SingleSpaceRun(s, 0);
        } else {
          assert SkipWhile(s, 1, IsSpace) == 1;
        }
        assert s == [' '] + s[1..];
      } else {
        assert s == [s[0]] + s[1..];
      }
    }
  }

  /** Trimming leaves a text without white space at its ends as it is. */
  lemma TrimNoEdgeSpace(s: string)
    requires NoEdgeSpace(s)
    ensures Trim(s) == s
  {
  }

  /** Trimming a slice skips the white space at its start. */
  lemma {:induction false} TrimStartSlice(s: string, i: nat, j: nat)
    requires i <= j <= |s| && SkipWhile(s, i, IsSpace) <= j
    ensures TrimStart(s[i..j]) == s[SkipWhile(s, i, IsSpace)..j]
    decreases j - i
  {
    if i < j && IsSpace(s[i]) {
      assert s[i..j][0] == s[i] && s[i..j][1..] == s[i + 1..j];
      TrimStartSlice(s, i + 1, j);
    }
  }

  /** A run that starts after the first character is the same run in the
      rest of the text, one place earlier. */
  lemma {:induction false} SkipWhileShift(s: string, i: nat, p: char -> bool)
    requires s != [] && i < |s|
    ensures SkipWhile(s, i + 1, p) == 1 + SkipWhile(s[1..], i, p)
    decreases |s| - i
  {
    if i + 1 < |s| && p(s[i + 1]) {
      SkipWhileShift(s, i + 1, p);
    }
  }

  /** A text that starts with a word: its first character joins the first
      piece of the rest. */
  lemma SplitSpaceNonSpace(s: string)
    requires s != [] && !IsSpace(s[0])
    ensures SplitSpace(s) == [[s[0]] + SplitSpace(s[1..])[0]] + SplitSpace(s[1..])[1..]
  {
    var t := s[1..];
    var i := SkipWhile(s, 0, IsNonSpace);
    var i' := SkipWhile(t, 0, IsNonSpace);
    assert SkipWhile(s, 0, IsNonSpace) == SkipWhile(s, 1, IsNonSpace);
    SkipWhileShift(s, 0, IsNonSpace);
    assert i == 1 + i';
    if i < |s| {
      SplitSpaceCut(s, t, i);
    } else {
      assert SplitSpace(t) == [t];
      assert s == [s[0]] + t;
    }
  }

  lemma SplitSpaceCut(s: string, t: string, i: nat)
    requires s != [] && t == s[1..] && 1 <= i < |s|
    requires i == SkipWhile(s, 0, IsNonSpace) && i - 1 == SkipWhile(t, 0, IsNonSpace)
    ensures SplitSpace(s) == [[s[0]] + SplitSpace(t)[0]] + SplitSpace(t)[1..]
  {
    var j := SkipWhile(s, i, IsSpace);
    SkipWhileShift(s, i - 1, IsSpace);
    var j' := SkipWhile(t, i - 1, IsSpace);
    assert j == 1 + j';
    assert SplitSpace(s) == [s[..i]] + SplitSpace(s[j..]);
    assert SplitSpace(t) == [t[..i - 1]] + SplitSpace(t[j'..]);
    assert s[j..] == t[j'..];
    assert s[..i] == [s[0]] + t[..i - 1];
  }

  /** A text that starts with white space: an empty first piece, then the
      pieces after the run. */
  lemma SplitSpaceSpace(s: string, j: nat)
    requires s != [] && IsSpace(s[0]) && j == SkipWhile(s, 0, IsSpace)
    ensures SplitSpace(s) == [[]] + SplitSpace(s[j..])
  {
    assert SkipWhile(s, 0, IsNonSpace) == 0;
  }

  /** `split(/\s+/)` cannot tell a run of white space from a single space. */
  lemma {:induction false} CollapseSpaceSplit(s: string)
    ensures SplitSpace(CollapseSpace(s)) == SplitSpace(s)
    decreases |s|
  {
    if s != [] {
      var c := CollapseSpace(s);
      if IsSpace(s[0]) {
        var j := SkipWhile(s, 0, IsSpace);
        var rest := CollapseSpace(s[j..]);
        CollapseSpaceSound(s[j..]);
        assert j < |s| ==> !IsSpace(s[j..][0]);
        assert c == [' '] + rest;
        SkipWhileUnique(c, 0, IsSpace, 1);
        SplitSpaceSpace(c, 1);
        assert c[1..] == rest;
        CollapseSpaceSplit(s[j..]);
        SplitSpaceSpace(s, j);
      } else {
        assert c == [s[0]] + CollapseSpace(s[1..]) && c[1..] == CollapseSpace(s[1..]);
        SplitSpaceNonSpace(c);
        CollapseSpaceSplit(s[1..]);
        SplitSpaceNonSpace(s);
      }
    }
  }

  /** Collapsing distributes over a cut that does not split a run of white
      space. */
  lemma {:induction false} CollapseConcat(x: string, y: string)
    requires x == [] || !IsSpace(x[|x| - 1])
    ensures CollapseSpace(x + y) == CollapseSpace(x) + CollapseSpace(y)
    decreases |x|
  {
    if x == [] {
      assert x + y == y;
    } else if IsSpace(x[0]) {
      var j := SkipWhile(x, 0, IsSpace);
      assert j < |x| && SkipWhile(x + y, 0, IsSpace) == j by {
        SkipWhileRun(x, 0, IsSpace);
        SkipWhileUnique(x + y, 0, IsSpace, j);
      }
      CollapseConcat(x[j..], y);
      CollapseConcatSpaceStep(x, y, j);
    } else {
      CollapseConcat(x[1..], y);
      CollapseConcatCharStep(x, y);
    }
  }

  /** The step of `CollapseConcat` for a leading run of white space. */
  lemma CollapseConcatSpaceStep(x: string, y: string, j: nat)
    requires x != [] && IsSpace(x[0])
    requires j == SkipWhile(x, 0, IsSpace) && j < |x| && SkipWhile(x + y, 0, IsSpace) == j
    requires CollapseSpace(x[j..] + y) == CollapseSpace(x[j..]) + CollapseSpace(y)
    ensures CollapseSpace(x + y) == CollapseSpace(x) + CollapseSpace(y)
  {
    var cx := CollapseSpace(x[j..]);
    var cy := CollapseSpace(y);
    assert CollapseSpace(x + y) == [' '] + (cx + cy) by {
      assert (x + y)[0] == x[0];
      assert (x + y)[j..] == x[j..] + y;
      CollapseSpaceRun(x + y);
    }
    assert CollapseSpace(x) == [' '] + cx by {
      CollapseSpaceRun(x);
    }
    ConcatAssoc([' '], cx, cy);
  }

  /** A character that is not white space is kept in front. */
  lemma CollapseSpaceCons(c: char, t: string)
    requires !IsSpace(c)
    ensures CollapseSpace([c] + t) == [c] + CollapseSpace(t)
  {
    assert ([c] + t)[1..] == t;
  }

  /** A leading run of white space becomes one space in front. */
  lemma CollapseSpaceRun(s: string)
    requires s != [] && IsSpace(s[0])
    ensures CollapseSpace(s) == [' '] + CollapseSpace(s[SkipWhile(s, 0, IsSpace)..])
  {
  }

  /** `TrimStart` drops a leading space. */
  lemma TrimStartSpaceCons(t: string)
    ensures TrimStart([' '] + t) == TrimStart(t)
  {
    assert ([' '] + t)[1..] == t;
  }

  /** The step of `CollapseConcat` for a leading character that is not white
      space. */
  lemma CollapseConcatCharStep(x: string, y: string)
    requires x != [] && !IsSpace(x[0])
    requires CollapseSpace(x[1..] + y) == CollapseSpace(x[1..]) + CollapseSpace(y)
    ensures CollapseSpace(x + y) == CollapseSpace(x) + CollapseSpace(y)
  {
    var c := x[0];
    var r := x[1..];
    assert CollapseSpace(x + y) == [c] + CollapseSpace(r + y) by {
      assert x + y == [c] + (r + y);
      CollapseSpaceCons(c, r + y);
    }
    assert CollapseSpace(x) == [c] + CollapseSpace(r) by {
      assert x == [c] + r;
      CollapseSpaceCons(c, r);
    }
    ConcatAssoc([c], CollapseSpace(r), CollapseSpace(y));
  }

  /** Concatenation is associative. */
  lemma ConcatAssoc(a: string, b: string, c: string)
    ensures a + (b + c) == (a + b) + c
  {
  }

  /** Collapsing keeps a last character that is not white space. */
  lemma {:induction false} CollapseLast(s: string)
    requires s != [] && !IsSpace(s[|s| - 1])
    ensures CollapseSpace(s) != [] && !IsSpace(CollapseSpace(s)[|CollapseSpace(s)| - 1])
    decreases |s|
  {
    var r := s[1..];
    assert s == [s[0]] + r;
    if IsSpace(s[0]) {
      var j := SkipWhile(s, 0, IsSpace);
      assert j < |s| by {
        SkipWhileRun(s, 0, IsSpace);
      }
      CollapseLast(s[j..]);
      CollapseSpaceRun(s);
      var c := CollapseSpace(s[j..]);
      assert ([' '] + c)[|c|] == c[|c| - 1];
    } else {
      CollapseSpaceCons(s[0], r);
      var c := CollapseSpace(r);
      if |s| > 1 {
        CollapseLast(r);
        assert ([s[0]] + c)[|c|] == c[|c| - 1];
      } else {
        assert r == [];
      }
    }
  }

  /** A non-empty run of white space collapses to one space. */
  lemma CollapseAllSpace(w: string)
    requires w != [] && AllSpace(w)
    ensures CollapseSpace(w) == [' ']
  {
    SkipWhileUnique(w, 0, IsSpace, |w|);
    assert w[|w|..] == [];
  }

  /** Trailing white space after a text that ends in a word is what
      `TrimEnd` drops. */
  lemma {:induction false} TrimEndSpaceAfter(a: string, w: string)
    requires (a == [] || !IsSpace(a[|a| - 1])) && AllSpace(w)
    ensures TrimEnd(a + w) == a
    decreases |w|
  {
    if w == [] {
      assert a + w == a;
    } else {
      assert (a + w)[..|a + w| - 1] == a + w[..|w| - 1];
      TrimEndSpaceAfter(a, w[..|w| - 1]);
    }
  }

  /** Trimming and collapsing can be done in either order. */
  lemma TrimCollapse(s: string)
    ensures Trim(CollapseSpace(s)) == CollapseSpace(Trim(s))
  {
    TrimStartCollapse(s);
    TrimEndCollapse(TrimStart(s));
  }

  lemma TrimEndCollapse(x: string)
    ensures TrimEnd(CollapseSpace(x)) == CollapseSpace(TrimEnd(x))
  {
    var u := TrimEnd(x);
    var w := x[|u|..];
    assert x == u + w;
    CollapseConcat(u, w);
    var cu := CollapseSpace(u);
    if u != [] {
      CollapseLast(u);
    }
    if w != [] {
      CollapseAllSpace(w);
      assert CollapseSpace(x) == cu + [' '];
      TrimEndSpaceAfter(cu, [' ']);
    } else {
      assert CollapseSpace(x) == cu + [];
      TrimEndSpaceAfter(cu, []);
    }
  }

  lemma TrimStartCollapse(s: string)
    ensures TrimStart(CollapseSpace(s)) == CollapseSpace(TrimStart(s))
  {
    if s != [] && IsSpace(s[0]) {
      var j := SkipWhile(s, 0, IsSpace);
      var c := CollapseSpace(s[j..]);
      assert c == [] || !IsSpace(c[0]) by {
        CollapseSpaceSound(s[j..]);
        assert j < |s| ==> !IsSpace(s[j..][0]);
      }
      assert TrimStart(CollapseSpace(s)) == c by {
        CollapseSpaceRun(s);
        TrimStartSpaceCons(c);
      }
      assert TrimStart(s) == s[j..] by {
        TrimStartSlice(s, 0, |s|);
        assert s[0..|s|] == s;
      }
    } else if s != [] {
      CollapseSpaceSound(s);
    }
  }
}
