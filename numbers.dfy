/** The number conversions the code relies on: `parseInt`, `parseFloat`, and
    the value of the digit groups its regular expressions capture.  Values are
    exact (`int`, `real`); the double-precision rounding of JavaScript numbers
    is not modelled. */
module Numbers {
  import opened Text
  import opened Wrappers

  function Pow10(n: nat): (p: nat)
    ensures p >= 1
  {
    if n == 0 then 1 else 10 * Pow10(n - 1)
  }

  /** The value of a digit in base 16 or less (`0-9`, `a-f`, `A-F`), or 16 for
      any other character. */
  function CharValue(c: char): (v: nat)
    ensures v <= 16
    ensures IsDigit(c) <==> v < 10
  {
    if IsDigit(c) then c as int - '0' as int
    else if 'a' <= c <= 'f' then c as int - 'a' as int + 10
    else if 'A' <= c <= 'F' then c as int - 'A' as int + 10
    else 16
  }

  predicate IsRadixDigit(c: char, radix: nat) {
    CharValue(c) < radix
  }

  predicate AllRadixDigits(s: string, radix: nat) {
    forall k | 0 <= k < |s| :: IsRadixDigit(s[k], radix)
  }

  /** Every digit of `s` is a zero. */
  predicate ZeroDigits(s: string) {
    forall k | 0 <= k < |s| :: CharValue(s[k]) == 0
  }

  lemma ZeroDigitsSnoc(s: string)
    requires s != []
    ensures ZeroDigits(s) <==> ZeroDigits(s[..|s| - 1]) && CharValue(s[|s| - 1]) == 0
  {
    assert forall k | 0 <= k < |s| - 1 :: s[..|s| - 1][k] == s[k];
  }

  /** The value of a string of digits in base `radix`, read left to right: it
      is zero exactly when every digit is `0`. */
  function RadixValue(s: string, radix: nat): (n: nat)
    requires 2 <= radix <= 16 && AllRadixDigits(s, radix)
    ensures n == 0 <==> ZeroDigits(s)
  {
    if s == [] then 0
    else
      var m := RadixValue(s[..|s| - 1], radix);
      var v := CharValue(s[|s| - 1]);
      assert forall k | 0 <= k < |s| - 1 :: s[..|s| - 1][k] == s[k];
      ZeroDigitsSnoc(s);
      MulAddZero(m, radix, v);
      m * radix + v
  }

  lemma MulAddZero(m: nat, radix: nat, v: nat)
    requires radix >= 1
    ensures m * radix + v >= m + v
    ensures m * radix + v == 0 <==> m == 0 && v == 0
  {
    assert m * radix >= m;
  }

  /** The value of a string of decimal digits (`\d+` captured by a regular
      expression), as `parseInt` gives it. */
  function DigitsValue(s: string): (n: nat)
    requires AllDigits(s)
    ensures n == 0 <==> forall k | 0 <= k < |s| :: s[k] == '0'
  {
    assert AllRadixDigits(s, 10) by {
      forall k | 0 <= k < |s| ensures IsRadixDigit(s[k], 10) {
        assert IsDigit(s[k]);
      }
    }
    assert forall k | 0 <= k < |s| :: (CharValue(s[k]) == 0 <==> s[k] == '0');
    RadixValue(s, 10)
  }

  /** A decimal number written as integer digits and fraction digits. */
  function DecimalValue(intDigits: string, fracDigits: string): (r: real)
    requires AllDigits(intDigits) && AllDigits(fracDigits)
    ensures r >= 0.0
    ensures r == 0.0 <==> (forall k | 0 <= k < |intDigits| :: intDigits[k] == '0')
                          && (forall k | 0 <= k < |fracDigits| :: fracDigits[k] == '0')
  {
    var a := DigitsValue(intDigits);
    var b := DigitsValue(fracDigits);
    var p := Pow10(|fracDigits|);
    ScaledSumZero(a, b, p);
    a as real + b as real / p as real
  }

  /** A whole part plus a fraction scaled down by a positive power is zero
      exactly when both parts are. */
  lemma ScaledSumZero(a: nat, b: nat, p: nat)
    requires p >= 1
    ensures a as real + b as real / p as real >= 0.0
    ensures a as real + b as real / p as real == 0.0 <==> a == 0 && b == 0
  {
    var f := b as real / p as real;
    assert f * p as real == b as real;
    assert f >= 0.0;
    if f == 0.0 {
      assert b as real == 0.0;
    }
  }

  /** The text of a `\d+\.?\d*` group: integer digits, then optionally a dot
      and fraction digits. */
  predicate IsDecimalGroup(g: string) {
    |g| > 0 && IsDigit(g[0])
    && var i := SkipWhile(g, 0, IsDigit);
       i == |g| || (g[i] == '.' && AllDigits(g[i + 1..]))
  }

  /** The end of a greedy `\d+\.?\d*` that starts at the digit `r`.  That
      it spans a decimal group is `DecimalGroupEndSound`. */
  function DecimalGroupEnd(s: string, r: nat): (e: nat)
    requires r < |s| && IsDigit(s[r])
    ensures r < e <= |s|
  {
    var d := SkipWhile(s, r, IsDigit);
    if d < |s| && s[d] == '.' then SkipWhile(s, d + 1, IsDigit) else d
  }

  /** The greedy group spans a decimal group. */
  lemma DecimalGroupEndSound(s: string, r: nat)
    requires r < |s| && IsDigit(s[r])
    ensures IsDecimalGroup(s[r..DecimalGroupEnd(s, r)])
  {
    var d := SkipWhile(s, r, IsDigit);
    var e := DecimalGroupEnd(s, r);
    var g := s[r..e];
    SkipWhileRun(s, r, IsDigit);
    SkipWhileUnique(g, 0, IsDigit, d - r);
    if d < e {
      SkipWhileRun(s, d + 1, IsDigit);
      assert g[d - r + 1..] == s[d + 1..e];
    }
  }

  /** The greedy group is the same in any prefix of `s` that goes past it. */
  lemma DecimalGroupEndPrefix(s: string, r: nat, n: nat)
    requires r < |s| && IsDigit(s[r]) && DecimalGroupEnd(s, r) < n <= |s|
    ensures DecimalGroupEnd(s[..n], r) == DecimalGroupEnd(s, r)
  {
    var d := SkipWhile(s, r, IsDigit);
    SkipWhilePrefix(s, r, IsDigit, n);
    if d < |s| && s[d] == '.' {
      SkipWhilePrefix(s, d + 1, IsDigit, n);
    }
  }

  /** A decimal group that stands in `s` at `r`, followed by neither a digit
      nor a dot, is exactly what the greedy group starting at `r` takes. */
  lemma DecimalGroupEndOf(s: string, r: nat, g: string)
    requires StartsAt(s, r, g) && IsDecimalGroup(g)
    requires r + |g| == |s| || (!IsDigit(s[r + |g|]) && s[r + |g|] != '.')
    ensures r < |s| && IsDigit(s[r])
    ensures DecimalGroupEnd(s, r) == r + |g|
  {
    var i := SkipWhile(g, 0, IsDigit);
    SkipWhileRun(g, 0, IsDigit);
    assert forall k | 0 <= k < |g| :: s[r + k] == g[k] by {
      forall k | 0 <= k < |g| ensures s[r + k] == g[k] {
        assert s[r..r + |g|][k] == s[r + k];
      }
    }
    SkipWhileUnique(s, r, IsDigit, r + i);
    if i < |g| {
      assert forall k | i + 1 <= k < |g| :: IsDigit(g[k]) by {
        forall k | i + 1 <= k < |g| ensures IsDigit(g[k]) {
          assert g[i + 1..][k - i - 1] == g[k];
        }
      }
      SkipWhileUnique(s, r + i + 1, IsDigit, r + |g|);
    }
  }

  /** Nothing after `s[r..e]` extends a `\d+\.?\d*` group: no digit follows,
      and a dot follows only a group that already has its dot. */
  predicate DecimalGroupMaximal(s: string, r: nat, e: nat)
    requires r <= e <= |s|
  {
    e == |s| || (!IsDigit(s[e]) && (s[e] == '.' ==> '.' in s[r..e]))
  }

  /** The greedy group cannot be extended. */
  lemma DecimalGroupEndMaximal(s: string, r: nat)
    requires r < |s| && IsDigit(s[r])
    ensures DecimalGroupMaximal(s, r, DecimalGroupEnd(s, r))
  {
    var d := SkipWhile(s, r, IsDigit);
    var e := DecimalGroupEnd(s, r);
    if d < |s| && s[d] == '.' && e < |s| {
      assert s[r..e][d - r] == '.';
    }
  }

  /** A decimal group at `r` that cannot be extended is the greedy one: the
      greedy `\d+\.?\d*` has no other end. */
  lemma DecimalGroupEndUnique(s: string, r: nat, e: nat)
    requires r <= e <= |s| && IsDecimalGroup(s[r..e]) && DecimalGroupMaximal(s, r, e)
    ensures r < |s| && IsDigit(s[r])
    ensures DecimalGroupEnd(s, r) == e
  {
    var g := s[r..e];
    assert s[r] == g[0];
    assert forall k | 0 <= k < |g| :: s[r + k] == g[k];
    var i := SkipWhile(g, 0, IsDigit);
    SkipWhileRun(g, 0, IsDigit);
    if i == |g| {
      assert forall k | r <= k < e :: IsDigit(s[k]) by {
        forall k | r <= k < e ensures IsDigit(s[k]) { assert s[k] == g[k - r]; }
      }
      SkipWhileUnique(s, r, IsDigit, e);
    } else {
      assert forall k | r <= k < r + i :: IsDigit(s[k]) by {
        forall k | r <= k < r + i ensures IsDigit(s[k]) { assert s[k] == g[k - r]; }
      }
      assert s[r + i] == g[i] == '.';
      SkipWhileUnique(s, r, IsDigit, r + i);
      assert forall k | r + i + 1 <= k < e :: IsDigit(s[k]) by {
        forall k | r + i + 1 <= k < e ensures IsDigit(s[k]) { assert s[k] == g[i + 1..][k - r - i - 1]; }
      }
      SkipWhileUnique(s, r + i + 1, IsDigit, e);
    }
  }

  /** `parseFloat` of a `\d+\.?\d*` group: the value of the decimal literal
      the group is (`DecimalLiteralOfGroup`). */
  function DecimalGroupValue(g: string): (r: real)
    requires IsDecimalGroup(g)
    ensures r >= 0.0
  {
    DecimalLiteral(g, 0).value.0
  }

  /** The exponent part `[eE][+-]?\d+` at `f`, if there is one: its value and
      where it ends; otherwise 0 and `f`. */
  function ExponentAt(s: string, f: nat): (r: (int, nat))
    requires f <= |s|
    ensures f <= r.1 <= |s|
  {
    if f < |s| && (s[f] == 'e' || s[f] == 'E') then
      var neg := f + 1 < |s| && s[f + 1] == '-';
      var b := if f + 1 < |s| && (s[f + 1] == '-' || s[f + 1] == '+') then f + 2 else f + 1;
      var e := SkipWhile(s, b, IsDigit);
      SkipWhileRun(s, b, IsDigit);
      if e == b then (0, f)
      else
        var v: int := DigitsValue(s[b..e]);
        (if neg then -v else v, e)
    else
      (0, f)
  }

  /** `m` times ten to the power `e`. */
  function Scale(m: real, e: int): real {
    if e >= 0 then m * Pow10(e) as real else m / Pow10(-e) as real
  }

  lemma ScaleZero(m: real)
    ensures Scale(m, 0) == m
  {
    assert Pow10(0) == 1;
  }

  /** The longest decimal literal without exponent at `a` (`1`, `1.`, `.5`,
      `1.5`): its value and where it ends, or `None` when there is none. */
  function DecimalLiteral(s: string, a: nat): (r: Option<(real, nat)>)
    requires a <= |s|
    ensures r.None? <==> !(a < |s| && IsDigit(s[a])) && !(a + 1 < |s| && s[a] == '.' && IsDigit(s[a + 1]))
    ensures r.Some? ==> r.value.0 >= 0.0 && a < r.value.1 <= |s|
  {
    var d := SkipWhile(s, a, IsDigit);
    var hasDot := d < |s| && s[d] == '.';
    var fs := if hasDot then d + 1 else d;
    var f := SkipWhile(s, fs, IsDigit);
    SkipWhileRun(s, a, IsDigit);
    SkipWhileRun(s, fs, IsDigit);
    if d == a && f == fs then None
    else Some((DecimalValue(s[a..d], s[fs..f]), f))
  }

  /** `parseFloat(s)`: leading white space, an optional sign, then the longest
      prefix that is a decimal literal (`1`, `1.`, `.5`, `1.5e-3`); `None`
      stands for `NaN`.  The literal `Infinity`, which JavaScript reads as an
      infinite number, has no exact value and is read as `NaN` here. */
  function ParseFloat(s: string): (r: Option<real>)
    ensures r.None? <==>
      var i := SkipWhile(s, 0, IsSpace);
      var a := if i < |s| && (s[i] == '-' || s[i] == '+') then i + 1 else i;
      !(a < |s| && IsDigit(s[a])) && !(a + 1 < |s| && s[a] == '.' && IsDigit(s[a + 1]))
  {
    var i := SkipWhile(s, 0, IsSpace);
    var neg := i < |s| && s[i] == '-';
    var a := if i < |s| && (s[i] == '-' || s[i] == '+') then i + 1 else i;
    match DecimalLiteral(s, a)
    case None => None
    case Some((mantissa, f)) =>
      var magnitude := Scale(mantissa, ExponentAt(s, f).0);
      Some(if neg then -magnitude else magnitude)
  }

  /** A `\d+\.?\d*` group is one whole decimal literal. */
  lemma DecimalLiteralOfGroup(g: string)
    requires IsDecimalGroup(g)
    ensures DecimalLiteral(g, 0).Some? && DecimalLiteral(g, 0).value.1 == |g|
  {
    var i := SkipWhile(g, 0, IsDigit);
    if i < |g| {
      assert forall k | i + 1 <= k < |g| :: IsDigit(g[k]) by {
        forall k | i + 1 <= k < |g| ensures IsDigit(g[k]) {
          assert g[i + 1..][k - i - 1] == g[k];
        }
      }
      SkipWhileUnique(g, i + 1, IsDigit, |g|);
    } else {
      assert SkipWhile(g, i, IsDigit) == i;
    }
  }

  /** On the text of a `\d+\.?\d*` group, `parseFloat` gives the group's
      decimal value. */
  lemma ParseFloatOfGroup(g: string)
    requires IsDecimalGroup(g)
    ensures ParseFloat(g) == Some(DecimalGroupValue(g))
  {
    assert SkipWhile(g, 0, IsSpace) == 0;
    assert g[0] != '-' && g[0] != '+';
    DecimalLiteralOfGroup(g);
    assert DecimalLiteral(g, 0) == Some((DecimalGroupValue(g), |g|));
    assert ExponentAt(g, |g|) == (0, |g|);
    ScaleZero(DecimalGroupValue(g));
  }

  /** The end of the run of base-`radix` digits that starts at `i`. */
  function RadixRunEnd(s: string, i: nat, radix: nat): (j: nat)
    requires i <= |s|
    ensures i <= j <= |s|
    ensures AllRadixDigits(s[i..j], radix)
    ensures j == |s| || !IsRadixDigit(s[j], radix)
    decreases |s| - i
  {
    if i < |s| && IsRadixDigit(s[i], radix) then
      var j := RadixRunEnd(s, i + 1, radix);
      assert forall k | 1 <= k < j - i :: s[i..j][k] == s[i + 1..j][k - 1];
      j
    else i
  }

  /** `parseInt(s)` with no radix: leading white space, an optional sign, an
      optional `0x`/`0X` prefix that selects base 16, then the longest run of
      digits of that base; `None` stands for `NaN`. */
  function ParseInt(s: string): (r: Option<int>)
  {
    var i := SkipWhile(s, 0, IsSpace);
    var neg := i < |s| && s[i] == '-';
    var a := if i < |s| && (s[i] == '-' || s[i] == '+') then i + 1 else i;
    var hex := StartsAt(s, a, "0x") || StartsAt(s, a, "0X");
    var radix := if hex then 16 else 10;
    var b := if hex then a + 2 else a;
    var e := RadixRunEnd(s, b, radix);
    if e == b then None
    else
      var v: int := RadixValue(s[b..e], radix);
      Some(if neg then -v else v)
  }

  /** On a string of decimal digits `parseInt` gives the digits' value. */
  lemma ParseIntOfDigits(s: string)
    requires s != [] && AllDigits(s)
    ensures ParseInt(s) == Some(DigitsValue(s) as int)
  {
    assert SkipWhile(s, 0, IsSpace) == 0;
    assert !StartsAt(s, 0, "0x") && !StartsAt(s, 0, "0X") by {
      if |s| >= 2 { assert s[0..2][1] == s[1]; }
    }
    assert RadixRunEnd(s, 0, 10) == |s|;
    assert s[0..|s|] == s;
  }

  /** `x || 1` for a number `x` that may be `NaN`: `NaN` and 0 become 1. */
  function OrOne(x: Option<int>): (n: int)
    ensures n != 0
    ensures x.Some? && x.value != 0 ==> n == x.value
    ensures !(x.Some? && x.value != 0) ==> n == 1
  {
    if x.Some? && x.value != 0 then x.value else 1
  }
}
