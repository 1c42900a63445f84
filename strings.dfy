/** The string helpers the pipeline relies on: Python's `str.split` and
    `str.join` for a one-character separator, code-point order on strings
    (what `sorted` uses), the `'*'` default-partition marker, and the
    decimal syntax accepted by `float`. */
module Strings {
  import opened Wrappers

  /** `s.split(c)`: the pieces between occurrences of `c`, always at least one. */
  function Split(s: string, c: char): (r: seq<string>)
    ensures |r| >= 1
    ensures forall i :: 0 <= i < |r| ==> c !in r[i]
    ensures forall i, ch :: 0 <= i < |r| && ch in r[i] ==> ch in s
    decreases |s|
  {
    if |s| == 0 then [""]
    else
      var rest := Split(s[1..], c);
      assert forall ch :: ch in s[1..] ==> ch in s;
      if s[0] == c then [""] + rest
      else
        var r := [[s[0]] + rest[0]] + rest[1..];
        assert forall i :: 1 <= i < |r| ==> r[i] == rest[i];
        r
  }

  /** `sep.join(ps)`. */
  function Join(ps: seq<string>, sep: string): string
    decreases |ps|
  {
    if |ps| == 0 then ""
    else if |ps| == 1 then ps[0]
    else ps[0] + sep + Join(ps[1..], sep)
  }

  /** Joining the pieces of a split gives the original string back. */
  lemma {:induction false} JoinSplit(s: string, c: char)
    ensures Join(Split(s, c), [c]) == s
    decreases |s|
  {
    if |s| > 0 {
      JoinSplit(s[1..], c);
      var rest := Split(s[1..], c);
      if s[0] != c && |rest| > 1 {
        assert rest == [rest[0]] + rest[1..];
      }
    }
  }

  lemma {:induction false} SplitWithoutSeparator(a: string, c: char)
    requires c !in a
    ensures Split(a, c) == [a]
    decreases |a|
  {
    if |a| > 0 {
      assert a[0] in a && forall ch :: ch in a[1..] ==> ch in a;
      SplitWithoutSeparator(a[1..], c);
      assert a == [a[0]] + a[1..];
    }
  }

  /** A split yields more than one piece exactly when the separator occurs. */
  lemma SplitFindsSeparator(s: string, c: char)
    ensures |Split(s, c)| >= 2 <==> c in s
  {
    if c in s {
      JoinSplit(s, c);
    } else {
      SplitWithoutSeparator(s, c);
    }
  }

  lemma {:induction false} SplitAfterPiece(a: string, b: string, c: char)
    requires c !in a
    ensures Split(a + [c] + b, c) == [a] + Split(b, c)
    decreases |a|
  {
    if |a| == 0 {
      assert (a + [c] + b)[1..] == b;
    } else {
      assert a[0] in a && forall ch :: ch in a[1..] ==> ch in a;
      assert (a + [c] + b)[0] == a[0];
      assert (a + [c] + b)[1..] == a[1..] + [c] + b;
      SplitAfterPiece(a[1..], b, c);
      assert a == [a[0]] + a[1..];
    }
  }

  /** Splitting a join of separator-free pieces gives the pieces back. */
  lemma {:induction false} SplitJoin(ps: seq<string>, c: char)
    requires |ps| >= 1
    requires forall i :: 0 <= i < |ps| ==> c !in ps[i]
    ensures Split(Join(ps, [c]), c) == ps
    decreases |ps|
  {
    if |ps| == 1 {
      SplitWithoutSeparator(ps[0], c);
    } else {
      SplitJoin(ps[1..], c);
      SplitAfterPiece(ps[0], Join(ps[1..], [c]), c);
      assert ps == [ps[0]] + ps[1..];
    }
  }

  /** A character found in neither the pieces nor the separator is not in the join. */
  lemma {:induction false} JoinAvoids(ps: seq<string>, sep: string, ch: char)
    requires ch !in sep
    requires forall i :: 0 <= i < |ps| ==> ch !in ps[i]
    ensures ch !in Join(ps, sep)
    decreases |ps|
  {
    if |ps| > 1 {
      JoinAvoids(ps[1..], sep, ch);
    }
  }

  /** Index of the first `c` in `s`, or `|s|` when there is none. */
  function Find(s: string, c: char): (r: nat)
    ensures r <= |s|
    ensures forall k :: 0 <= k < r ==> s[k] != c
    ensures r < |s| ==> s[r] == c
    ensures r == |s| <==> c !in s
    decreases |s|
  {
    if |s| == 0 then 0
    else if s[0] == c then 0
    else 1 + Find(s[1..], c)
  }

  lemma {:induction false} FindAfter(a: string, b: string, c: char)
    requires c !in a
    ensures Find(a + b, c) == |a| + Find(b, c)
    decreases |a|
  {
    if |a| > 0 {
      assert a[0] in a && forall ch :: ch in a[1..] ==> ch in a;
      assert (a + b)[0] == a[0];
      assert (a + b)[1..] == a[1..] + b;
      assert a[0] != c;
      assert Find(a + b, c) == 1 + Find(a[1..] + b, c);
      FindAfter(a[1..], b, c);
    } else {
      assert a + b == b;
    }
  }

  /** Python's `<` on `str`: code-point lexicographic order. */
  predicate LexLess(a: string, b: string)
    decreases |a|
  {
    if |a| == 0 then |b| > 0
    else if |b| == 0 then false
    else if a[0] != b[0] then a[0] < b[0]
    else LexLess(a[1..], b[1..])
  }

  lemma {:induction false} LexIrreflexive(a: string)
    ensures !LexLess(a, a)
    decreases |a|
  {
    if |a| > 0 {
      LexIrreflexive(a[1..]);
    }
  }

  lemma {:induction false} LexTransitive(a: string, b: string, c: string)
    requires LexLess(a, b) && LexLess(b, c)
    ensures LexLess(a, c)
    decreases |a|
  {
    if |a| > 0 && a[0] == b[0] && b[0] == c[0] {
      LexTransitive(a[1..], b[1..], c[1..]);
    }
  }

  lemma {:induction false} LexTotal(a: string, b: string)
    requires a != b
    ensures LexLess(a, b) || LexLess(b, a)
    decreases |a|
  {
    if |a| > 0 && |b| > 0 && a[0] == b[0] {
      assert a == [a[0]] + a[1..] && b == [b[0]] + b[1..];
      LexTotal(a[1..], b[1..]);
    }
  }

  lemma {:induction false} LexAsymmetric(a: string, b: string)
    requires LexLess(a, b)
    ensures !LexLess(b, a)
  {
    if LexLess(b, a) {
      LexTransitive(a, b, a);
      LexIrreflexive(a);
    }
  }

  /** `name.endswith('*')`: the name carries the default-partition marker. */
  predicate EndsWithStar(name: string) {
    |name| > 0 && name[|name| - 1] == '*'
  }

  /** `name[:-1]` taken only when the name ends with the marker. */
  function StripOneStar(name: string): (r: string)
    ensures EndsWithStar(name) ==> r + "*" == name
    ensures !EndsWithStar(name) ==> r == name
  {
    if EndsWithStar(name) then name[..|name| - 1] else name
  }

  function TrimLeadingStars(s: string): (r: string)
    ensures |r| <= |s| && r == s[|s| - |r|..]
    ensures forall k :: 0 <= k < |s| - |r| ==> s[k] == '*'
    ensures |r| == 0 || r[0] != '*'
    decreases |s|
  {
    if |s| > 0 && s[0] == '*' then
      var t := s[1..];
      var r := TrimLeadingStars(t);
      LeadingStarStep(s, t, r);
      r
    else s
  }

  /** One more leading `*` in front of a trimmed remainder. */
  lemma LeadingStarStep(s: string, t: string, r: string)
    requires |s| > 0 && s[0] == '*' && t == s[1..]
    requires |r| <= |t| && r == t[|t| - |r|..]
    requires forall k :: 0 <= k < |t| - |r| ==> t[k] == '*'
    ensures r == s[|s| - |r|..]
    ensures forall k :: 0 <= k < |s| - |r| ==> s[k] == '*'
  {
    assert t[|t| - |r|..] == s[|s| - |r|..];
    forall k | 1 <= k < |s| - |r|
      ensures s[k] == '*'
    {
      assert s[k] == t[k - 1];
    }
  }

  function TrimTrailingStars(s: string): (r: string)
    ensures |r| <= |s| && r == s[..|r|]
    ensures forall k :: |r| <= k < |s| ==> s[k] == '*'
    ensures |r| == 0 || r[|r| - 1] != '*'
    decreases |s|
  {
    if |s| > 0 && s[|s| - 1] == '*' then
      var t := s[..|s| - 1];
      var r := TrimTrailingStars(t);
      assert t[..|r|] == s[..|r|];
      assert forall k :: 0 <= k < |s| - 1 ==> s[k] == t[k];
      r
    else s
  }

  /** `name` is `lo` markers, then `r`, then markers only. */
  predicate StarsAround(name: string, lo: nat, r: string) {
    && lo + |r| <= |name|
    && (forall k :: 0 <= k < |r| ==> name[lo + k] == r[k])
    && (forall k :: 0 <= k < lo ==> name[k] == '*')
    && (forall k :: lo + |r| <= k < |name| ==> name[k] == '*')
  }

  /** `name.strip('*')`: every leading and trailing marker removed, and
      nothing else, so `*` inside the name stay. */
  function StripStars(name: string): (r: string)
    ensures |r| == 0 || (r[0] != '*' && r[|r| - 1] != '*')
    ensures exists lo: nat :: StarsAround(name, lo, r)
  {
    var t := TrimLeadingStars(name);
    var r := TrimTrailingStars(t);
    var lo := |name| - |t|;
    TrimmedRuns(name, t, r, lo);
    r
  }

  lemma TrimmedRuns(name: string, t: string, r: string, lo: nat)
    requires t == TrimLeadingStars(name) && r == TrimTrailingStars(t) && lo == |name| - |t|
    ensures StarsAround(name, lo, r)
  {
    assert t == name[lo..];
    assert r == t[..|r|];
    forall k | 0 <= k < |r|
      ensures name[lo + k] == r[k]
    {
      assert name[lo + k] == t[k];
    }
    forall k | lo + |r| <= k < |name|
      ensures name[k] == '*'
    {
      assert name[k] == t[k - lo];
    }
  }

  predicate IsDigit(ch: char) {
    '0' <= ch <= '9'
  }

  predicate AllDigits(s: string) {
    forall k :: 0 <= k < |s| ==> IsDigit(s[k])
  }

  function DigitValue(ch: char): nat
    requires IsDigit(ch)
  {
    (ch as int - '0' as int) as nat
  }

  /** The number a string of decimal digits denotes. */
  function DigitsValue(d: string): nat
    requires AllDigits(d)
    decreases |d|
  {
    if |d| == 0 then 0
    else DigitsValue(d[..|d| - 1]) * 10 + DigitValue(d[|d| - 1])
  }

  function Pow10(n: nat): (r: nat)
    ensures r >= 1
  {
    if n == 0 then 1 else 10 * Pow10(n - 1)
  }

  /** `float` on the text after an optional sign: digits, an optional `.`
      and more digits, with at least one digit in all. */
  function ParseUnsigned(body: string): Option<real> {
    var dot := Find(body, '.');
    ParseParts(body[..dot], if dot < |body| then body[dot + 1..] else "")
  }

  /** The number with whole part `whole` and fraction digits `frac`. */
  function ParseParts(whole: string, frac: string): Option<real> {
    if |whole| + |frac| == 0 || !AllDigits(whole) || !AllDigits(frac) then None
    else Some(DigitsValue(whole) as real + DigitsValue(frac) as real / Pow10(|frac|) as real)
  }

  predicate IsSign(ch: char) {
    ch == '-' || ch == '+'
  }

  /** `float(s)` for plain decimal notation: an optional sign, then what
      `ParseUnsigned` reads. */
  function ParseFloat(s: string): (r: Option<real>)
    ensures |s| > 0 && AllDigits(s) ==> r == Some(DigitsValue(s) as real)
    ensures |s| == 0 ==> r == None
  {
    if |s| > 0 && IsSign(s[0]) then
      match ParseUnsigned(s[1..])
      case None => None
      case Some(v) => Some(if s[0] == '-' then -v else v)
    else
      assert AllDigits(s) ==> Find(s, '.') == |s| && s[..|s|] == s;
      ParseUnsigned(s)
  }

  /** `float(w + "." + f)` for digit strings `w` and `f`, not both empty:
      the whole part plus the fraction `f / 10^|f|`. */
  lemma ParseDecimal(w: string, f: string)
    requires AllDigits(w) && AllDigits(f) && |w| + |f| > 0
    ensures ParseFloat(w + "." + f)
         == Some(DigitsValue(w) as real + DigitsValue(f) as real / Pow10(|f|) as real)
  {
    var s := w + "." + f;
    assert !IsSign(s[0]) by {
      if |w| > 0 {
        assert s[0] == w[0] && IsDigit(w[0]);
      } else {
        assert s[0] == '.';
      }
    }
    assert ParseFloat(s) == ParseUnsigned(s);
    UnsignedDecimal(w, f);
    PartsValue(w, f);
  }

  lemma PartsValue(w: string, f: string)
    requires AllDigits(w) && AllDigits(f) && |w| + |f| > 0
    ensures ParseParts(w, f) == Some(DigitsValue(w) as real + DigitsValue(f) as real / Pow10(|f|) as real)
  {
  }

  lemma UnsignedDecimal(w: string, f: string)
    requires AllDigits(w)
    ensures ParseUnsigned(w + "." + f) == ParseParts(w, f)
  {
    var s := w + "." + f;
    assert '.' !in w by {
      forall k | 0 <= k < |w|
        ensures w[k] != '.'
      {
        assert IsDigit(w[k]);
      }
    }
    FindAfter(w, "." + f, '.');
    assert s == w + ("." + f);
    var dot := Find(s, '.');
    assert dot == |w|;
    assert s[..dot] == w;
    assert dot < |s|;
    assert s[dot + 1..] == f;
  }

  /** `float` with a leading `-` or `+`: the sign applied to the value of
      the rest, and an error exactly when the rest is not a number. */
  lemma ParseSigned(sign: char, u: string)
    requires IsSign(sign)
    ensures ParseFloat([sign] + u).None? <==> ParseUnsigned(u).None?
    ensures ParseUnsigned(u).Some? ==>
      ParseFloat([sign] + u) == Some(if sign == '-' then -ParseUnsigned(u).value else ParseUnsigned(u).value)
  {
    var s := [sign] + u;
    assert s[0] == sign && s[1..] == u;
  }

  /** Without a sign, `float` reads the text as `ParseUnsigned` does. */
  lemma ParseFloatUnsigned(s: string)
    requires |s| == 0 || !IsSign(s[0])
    ensures ParseFloat(s) == ParseUnsigned(s)
  {
  }

  function DigitChar(d: nat): (ch: char)
    requires d < 10
    ensures IsDigit(ch) && DigitValue(ch) == d
  {
    ('0' as int + d) as char
  }

  /** `str(n)` for a natural number. */
  function NatToString(n: nat): (s: string)
    ensures |s| > 0 && AllDigits(s)
    decreases n
  {
    if n < 10 then [DigitChar(n)] else NatToString(n / 10) + [DigitChar(n % 10)]
  }

  /** `float(str(n)) == n`: printing a count and parsing it back is exact. */
  lemma {:induction false} ParseNatToString(n: nat)
    ensures ParseFloat(NatToString(n)) == Some(n as real)
    decreases n
  {
    DigitsOfNat(n);
  }

  lemma {:induction false} DigitsOfNat(n: nat)
    ensures DigitsValue(NatToString(n)) == n
    decreases n
  {
    if n >= 10 {
      DigitsOfNat(n / 10);
      var s := NatToString(n);
      assert s[..|s| - 1] == NatToString(n / 10);
    } else {
      var s := NatToString(n);
      assert s[..0] == "";
    }
  }
}
