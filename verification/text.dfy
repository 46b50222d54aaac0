/** Text handling the backend relies on: Python's `str.strip()`, the
    case-insensitive substring test behind `Series.str.contains(..., case=False)`,
    and the numeral readers behind `pd.to_numeric` and `int(...)`. */
module Text {
  import opened Wrappers

  // ---------------------------------------------------------------------------
  // Whitespace and str.strip()

  /** Python's `str.isspace()` for one code point. */
  predicate IsSpace(c: char)
  {
    var n := c as int;
    (9 <= n <= 13) || (28 <= n <= 32) || n == 0x85 || n == 0xA0 || n == 0x1680
    || (0x2000 <= n <= 0x200A) || n == 0x2028 || n == 0x2029 || n == 0x202F
    || n == 0x205F || n == 0x3000
  }

  predicate AllSpace(s: string)
  {
    forall k :: 0 <= k < |s| ==> IsSpace(s[k])
  }

  /** Drops leading whitespace: what is removed is all whitespace, and what is
      left is a suffix that does not start with whitespace. */
  function TrimLeft(s: string): (r: string)
    ensures |r| <= |s| && r == s[|s| - |r|..]
    ensures AllSpace(s[..|s| - |r|])
    ensures r == [] || !IsSpace(r[0])
  {
    if |s| > 0 && IsSpace(s[0]) then TrimLeft(s[1..]) else s
  }

  /** Drops trailing whitespace, symmetrically to `TrimLeft`. */
  function TrimRight(s: string): (r: string)
    ensures |r| <= |s| && r == s[..|r|]
    ensures AllSpace(s[|r|..])
    ensures r == [] || !IsSpace(r[|r| - 1])
  {
    if |s| > 0 && IsSpace(s[|s| - 1]) then TrimRight(s[..|s| - 1]) else s
  }

  /** `str.strip()`: the longest infix of `s` with whitespace only outside it. */
  function Strip(s: string): (r: string)
    ensures exists i :: 0 <= i <= |s| - |r| && r == s[i..i + |r|]
                        && AllSpace(s[..i]) && AllSpace(s[i + |r|..])
    ensures r == [] || (!IsSpace(r[0]) && !IsSpace(r[|r| - 1]))
  {
    var l := TrimLeft(s);
    var r := TrimRight(l);
    var i := |s| - |l|;
    assert r == s[i..i + |r|];
    assert s[i + |r|..] == l[|r|..];
    TrimRight(l)
  }

  lemma {:induction false} TrimLeftPadded(pad: string, t: string)
    requires AllSpace(pad)
    requires t == [] || !IsSpace(t[0])
    ensures TrimLeft(pad + t) == t
  {
    if |pad| > 0 {
      assert (pad + t)[1..] == pad[1..] + t;
      TrimLeftPadded(pad[1..], t);
    } else {
      assert pad + t == t;
    }
  }

  lemma {:induction false} TrimRightPadded(t: string, pad: string)
    requires AllSpace(pad)
    requires t == [] || !IsSpace(t[|t| - 1])
    ensures TrimRight(t + pad) == t
  {
    if |pad| > 0 {
      assert (t + pad)[..|t + pad| - 1] == t + pad[..|pad| - 1];
      TrimRightPadded(t, pad[..|pad| - 1]);
    } else {
      assert t + pad == t;
    }
  }

  /** Stripping removes exactly the surrounding whitespace: any text whose ends
      are not whitespace survives any padding unchanged. */
  lemma StripPadded(pre: string, t: string, post: string)
    requires AllSpace(pre) && AllSpace(post)
    requires t == [] || (!IsSpace(t[0]) && !IsSpace(t[|t| - 1]))
    ensures Strip(pre + t + post) == t
  {
    if t == [] {
      assert pre + t + post == pre + post;
      assert AllSpace(pre + post);
      AllSpaceTrimsToEmpty(pre + post);
    } else {
      assert pre + t + post == pre + (t + post);
      TrimLeftPadded(pre, t + post);
      TrimRightPadded(t, post);
    }
  }

  lemma {:induction false} AllSpaceTrimsToEmpty(s: string)
    requires AllSpace(s)
    ensures TrimLeft(s) == []
  {
    if |s| > 0 {
      AllSpaceTrimsToEmpty(s[1..]);
    }
  }

  /** `strip` is idempotent. */
  lemma StripIdempotent(s: string)
    ensures Strip(Strip(s)) == Strip(s)
  {
    var t := Strip(s);
    StripPadded([], t, []);
    assert [] + t + [] == t;
  }

  // ---------------------------------------------------------------------------
  // Case-insensitive substring search

  function LowerChar(c: char): char
  {
    if 'A' <= c <= 'Z' then (c as int + 32) as char else c
  }

  /** ASCII lower-casing, character by character. */
  function Lower(s: string): (r: string)
    ensures |r| == |s|
    ensures forall k :: 0 <= k < |s| ==> r[k] == LowerChar(s[k])
  {
    if |s| == 0 then [] else [LowerChar(s[0])] + Lower(s[1..])
  }

  lemma LowerSlice(s: string, i: int, j: int)
    requires 0 <= i <= j <= |s|
    ensures Lower(s)[i..j] == Lower(s[i..j])
  {
  }

  predicate IsPrefix(p: string, s: string)
  {
    |p| <= |s| && s[..|p|] == p
  }

  /** `p` occurs in `s` starting at position `i`. */
  predicate OccursAt(p: string, s: string, i: int)
  {
    0 <= i <= |s| - |p| && s[i..i + |p|] == p
  }

  /** Whether `p` occurs in `s` at some position. */
  function IsSubstring(p: string, s: string): (r: bool)
    ensures r <==> exists i :: OccursAt(p, s, i)
    decreases |s|
  {
    if IsPrefix(p, s) then
      assert OccursAt(p, s, 0);
      true
    else if |s| == 0 then false
    else
      var tail := IsSubstring(p, s[1..]);
      ShiftOccurrence(p, s);
      tail
  }

  lemma ShiftOccurrence(p: string, s: string)
    requires |s| > 0 && !IsPrefix(p, s)
    ensures (exists i :: OccursAt(p, s, i)) <==> (exists i :: OccursAt(p, s[1..], i))
  {
    forall i | OccursAt(p, s, i)
      ensures OccursAt(p, s[1..], i - 1)
    {
      assert i != 0;
      assert s[1..][i - 1..i - 1 + |p|] == s[i..i + |p|];
    }
    forall i | OccursAt(p, s[1..], i)
      ensures OccursAt(p, s, i + 1)
    {
      assert s[1..][i..i + |p|] == s[i + 1..i + 1 + |p|];
    }
  }

  /** `pattern` occurs in `text` at position `i` when case is ignored. */
  predicate FoldMatchAt(text: string, pattern: string, i: int)
  {
    0 <= i <= |text| - |pattern| && Lower(text[i..i + |pattern|]) == Lower(pattern)
  }

  /** The case-insensitive substring test: some window of `text` equals
      `pattern` once both are lower-cased. */
  function ContainsFold(text: string, pattern: string): (r: bool)
    ensures r <==> exists i :: FoldMatchAt(text, pattern, i)
  {
    var lt := Lower(text);
    var lp := Lower(pattern);
    FoldMatchIsLowerOccurrence(text, pattern);
    IsSubstring(lp, lt)
  }

  lemma FoldMatchIsLowerOccurrence(text: string, pattern: string)
    ensures forall i :: FoldMatchAt(text, pattern, i) <==> OccursAt(Lower(pattern), Lower(text), i)
  {
    forall i | 0 <= i <= |text| - |pattern|
      ensures FoldMatchAt(text, pattern, i) <==> OccursAt(Lower(pattern), Lower(text), i)
    {
      LowerSlice(text, i, i + |pattern|);
    }
  }

  // ---------------------------------------------------------------------------
  // Numerals

  predicate IsDigit(c: char)
  {
    '0' <= c <= '9'
  }

  predicate AllDigits(s: string)
  {
    forall k :: 0 <= k < |s| ==> IsDigit(s[k])
  }

  function DigitValue(c: char): nat
    requires IsDigit(c)
  {
    c as int - '0' as int
  }

  /** The value of a run of decimal digits, most significant first. */
  function DigitsValue(s: string): nat
    requires AllDigits(s)
  {
    if |s| == 0 then 0 else DigitsValue(s[..|s| - 1]) * 10 + DigitValue(s[|s| - 1])
  }

  function Pow10(k: nat): (r: nat)
    ensures r >= 1
  {
    if k == 0 then 1 else 10 * Pow10(k - 1)
  }

  /** Canonical decimal rendering of a natural number (`str(n)` in Python). */
  function ShowNat(n: nat): string
  {
    if n < 10 then [('0' as int + n) as char]
    else ShowNat(n / 10) + [('0' as int + n % 10) as char]
  }

  /** Decimal rendering of an integer with a leading minus when negative. */
  function ShowInt(i: int): string
  {
    if i < 0 then "-" + ShowNat(-i) else ShowNat(i)
  }

  /** Reading back a rendered natural number gives the number. */
  lemma {:induction false} ShowNatRoundTrip(n: nat)
    ensures |ShowNat(n)| > 0 && AllDigits(ShowNat(n))
    ensures DigitsValue(ShowNat(n)) == n
  {
    if n >= 10 {
      ShowNatRoundTrip(n / 10);
      var s := ShowNat(n);
      assert s[..|s| - 1] == ShowNat(n / 10);
    }
  }

  /** Position of the first occurrence of `c`. */
  function Find(s: string, c: char): (r: Option<nat>)
    ensures r.Some? ==> r.value < |s| && s[r.value] == c
                        && forall k :: 0 <= k < r.value ==> s[k] != c
    ensures r.None? ==> forall k :: 0 <= k < |s| ==> s[k] != c
  {
    if |s| == 0 then None
    else if s[0] == c then Some(0)
    else match Find(s[1..], c)
      case None => None
      case Some(k) => Some(k + 1)
  }

  /** Splits an optional leading sign off: `(negative, rest)`. */
  function SplitSign(s: string): (r: (bool, string))
    ensures r.0 ==> |s| > 0 && s[0] == '-'
    ensures |s| > 0 && (s[0] == '-' || s[0] == '+') ==> r.1 == s[1..]
    ensures !(|s| > 0 && (s[0] == '-' || s[0] == '+')) ==> r == (false, s)
  {
    if |s| > 0 && s[0] == '-' then (true, s[1..])
    else if |s| > 0 && s[0] == '+' then (false, s[1..])
    else (false, s)
  }

  function Signed(neg: bool, v: real): real
  {
    if neg then -v else v
  }

  /** An unsigned decimal numeral `digits`, `digits.digits`, `digits.` or `.digits`. */
  function ParseUnsigned(u: string): (r: Option<real>)
    ensures r.Some? ==> r.value >= 0.0 && |u| > 0
  {
    match Find(u, '.')
    case None =>
      if |u| > 0 && AllDigits(u) then Some(DigitsValue(u) as real) else None
    case Some(p) =>
      var whole := u[..p];
      var frac := u[p + 1..];
      if AllDigits(whole) && AllDigits(frac) && |whole| + |frac| > 0 then
        Some(DigitsValue(whole) as real + DigitsValue(frac) as real / Pow10(|frac|) as real)
      else None
  }

  /** `pd.to_numeric` on one text cell, for the plain decimal forms
      `[+-]digits`, `[+-]digits.digits`, `[+-]digits.` and `[+-].digits`;
      anything else is not a number (and `errors='coerce'` turns it into NaN). */
  function ParseDecimal(s: string): (r: Option<real>)
    ensures r.Some? ==> |s| > 0
    ensures r.Some? && r.value < 0.0 ==> s[0] == '-'
  {
    var (neg, u) := SplitSign(s);
    match ParseUnsigned(u)
    case None => None
    case Some(v) => Some(Signed(neg, v))
  }

  /** Python's `int(text)`: surrounding whitespace is ignored, then an optional
      sign and at least one ASCII digit; anything else is `None`. This is
      narrower than `int()`, which also accepts `_` between digits and
      non-ASCII decimal digits. */
  function ParseInt(s: string): (r: Option<int>)
    ensures r.Some? ==> exists k :: 0 <= k < |s| && IsDigit(s[k])
  {
    var t := Strip(s);
    var (neg, u) := SplitSign(t);
    if |u| > 0 && AllDigits(u) then
      assert IsDigit(t[|t| - |u|]);
      var v: int := DigitsValue(u);
      Some(if neg then -v else v)
    else None
  }

  /** A rendered integer has no surrounding whitespace and splits into its
      sign and the digits of its magnitude. */
  lemma ShowIntShape(i: int)
    ensures var s := ShowInt(i);
            |s| > 0 && !IsSpace(s[0]) && !IsSpace(s[|s| - 1])
            && SplitSign(s) == (i < 0, ShowNat(if i < 0 then -i else i))
  {
    var n: nat := if i < 0 then -i else i;
    ShowNatRoundTrip(n);
    var s := ShowInt(i);
    var d := ShowNat(n);
    assert IsDigit(d[0]) && IsDigit(d[|d| - 1]);
    if i < 0 {
      assert s == "-" + d;
      assert s[1..] == d;
    }
  }

  /** `int(str(i)) == i`. */
  lemma ParseIntRoundTrip(i: int)
    ensures ParseInt(ShowInt(i)) == Some(i)
  {
    var s := ShowInt(i);
    var n: nat := if i < 0 then -i else i;
    ShowIntShape(i);
    ShowNatRoundTrip(n);
    StripPadded([], s, []);
    assert [] + s + [] == s;
    assert Strip(s) == s;
  }

  /** `pd.to_numeric(str(i)) == i`. */
  lemma ParseDecimalRoundTrip(i: int)
    ensures ParseDecimal(ShowInt(i)) == Some(i as real)
  {
    var s := ShowInt(i);
    var n: nat := if i < 0 then -i else i;
    ShowNatRoundTrip(n);
    var u := SplitSign(s).1;
    assert u == ShowNat(n);
    assert Find(u, '.') == None;
  }
}
