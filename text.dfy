/** The string operations the search relies on: .NET whitespace, Trim,
    TrimEnd, StartsWith, the ordering used to sort relationship ids, and
    the decimal rendering of an integer (int.ToString). */
module Text {

  /** Char.IsWhiteSpace: the Unicode separators (Zs, Zl, Zp) plus U+0009..U+000D,
      U+0085 and U+00A0. */
  predicate IsWhiteSpace(c: char) {
    || ('\U{9}' <= c <= '\U{D}')
    || c == ' '
    || c == '\U{85}'
    || c == '\U{A0}'
    || c == '\U{1680}'
    || ('\U{2000}' <= c <= '\U{200A}')
    || c == '\U{2028}'
    || c == '\U{2029}'
    || c == '\U{202F}'
    || c == '\U{205F}'
    || c == '\U{3000}'
  }

  predicate AllWhiteSpace(s: string) {
    forall i :: 0 <= i < |s| ==> IsWhiteSpace(s[i])
  }

  /** True when s is empty or neither starts nor ends with whitespace. */
  predicate IsTrimmed(s: string) {
    s == [] || (!IsWhiteSpace(s[0]) && !IsWhiteSpace(s[|s| - 1]))
  }

  /** string.TrimStart(): s without its leading whitespace. */
  function TrimStart(s: string): (r: string)
    ensures |r| <= |s| && r == s[|s| - |r|..]
    ensures forall i :: 0 <= i < |s| - |r| ==> IsWhiteSpace(s[i])
    ensures r == [] || !IsWhiteSpace(r[0])
  {
    if s != [] && IsWhiteSpace(s[0]) then
      var r := TrimStart(s[1..]);
      assert s[|s| - |r|..] == s[1..][|s| - 1 - |r|..];
      r
    else
      s
  }

  /** string.TrimEnd(): s without its trailing whitespace. */
  function TrimEnd(s: string): (r: string)
    ensures |r| <= |s| && r == s[..|r|]
    ensures forall i :: |r| <= i < |s| ==> IsWhiteSpace(s[i])
    ensures r == [] || !IsWhiteSpace(r[|r| - 1])
  {
    if s != [] && IsWhiteSpace(s[|s| - 1]) then
      var r := TrimEnd(s[..|s| - 1]);
      assert s[..|r|] == s[..|s| - 1][..|r|];
      r
    else
      s
  }

  /** string.Trim(): s without leading and trailing whitespace. */
  function Trim(s: string): (r: string)
    ensures IsTrimmed(r)
    ensures |r| <= |s|
  {
    var t := TrimStart(s);
    var r := TrimEnd(t);
    assert r != [] ==> r[0] == t[0];
    r
  }

  /** Trim keeps exactly the part of s between its leading and its trailing
      whitespace: any split of s into whitespace, a trimmed middle and
      whitespace has Trim(s) as its middle. */
  lemma {:induction false} TrimUnique(a: string, m: string, b: string)
    requires AllWhiteSpace(a) && AllWhiteSpace(b) && IsTrimmed(m)
    ensures Trim(a + m + b) == m
  {
    assert a + m + b == a + (m + b);
    if m == [] {
      assert m + b == b;
      TrimStartOfWhiteSpace(a + b);
    } else {
      TrimStartOfPadded(a, m + b);
      TrimEndOfPadded(m, b);
    }
  }

  lemma {:induction false} TrimStartOfWhiteSpace(s: string)
    requires AllWhiteSpace(s)
    ensures TrimStart(s) == []
  {
    if s != [] {
      TrimStartOfWhiteSpace(s[1..]);
    }
  }

  lemma {:induction false} TrimStartOfPadded(a: string, t: string)
    requires AllWhiteSpace(a) && (t == [] || !IsWhiteSpace(t[0]))
    ensures TrimStart(a + t) == t
  {
    if a != [] {
      assert (a + t)[1..] == a[1..] + t;
      TrimStartOfPadded(a[1..], t);
    }
  }

  lemma {:induction false} TrimEndOfPadded(m: string, b: string)
    requires AllWhiteSpace(b) && (m == [] || !IsWhiteSpace(m[|m| - 1]))
    ensures TrimEnd(m + b) == m
  {
    if b != [] {
      assert (m + b)[..|m + b| - 1] == m + b[..|b| - 1];
      TrimEndOfPadded(m, b[..|b| - 1]);
    } else {
      assert m + b == m;
    }
  }

  /** Trimming twice is trimming once. */
  lemma TrimIdempotent(s: string)
    ensures Trim(Trim(s)) == Trim(s)
  {
    TrimUnique([], Trim(s), []);
    assert [] + Trim(s) + [] == Trim(s);
  }

  /** Ordinal string.StartsWith(prefix). */
  predicate StartsWith(s: string, prefix: string) {
    |prefix| <= |s| && s[..|prefix|] == prefix
  }

  /** Ordinal (char-by-char) lexicographic order: the comparison OrderBy applies to relationship ids. */
  predicate OrdinalLessEq(a: string, b: string) {
    if a == [] then true
    else if b == [] then false
    else if a[0] != b[0] then a[0] < b[0]
    else OrdinalLessEq(a[1..], b[1..])
  }

  lemma {:induction false} OrdinalTotal(a: string, b: string)
    ensures OrdinalLessEq(a, b) || OrdinalLessEq(b, a)
  {
    if a != [] && b != [] && a[0] == b[0] {
      OrdinalTotal(a[1..], b[1..]);
    }
  }

  lemma {:induction false} OrdinalTransitive(a: string, b: string, c: string)
    requires OrdinalLessEq(a, b) && OrdinalLessEq(b, c)
    ensures OrdinalLessEq(a, c)
  {
    if a != [] && b != [] && c != [] && a[0] == b[0] && b[0] == c[0] {
      OrdinalTransitive(a[1..], b[1..], c[1..]);
    }
  }

  lemma {:induction false} OrdinalAntisymmetric(a: string, b: string)
    requires OrdinalLessEq(a, b) && OrdinalLessEq(b, a)
    ensures a == b
  {
    if a != [] && b != [] {
      OrdinalAntisymmetric(a[1..], b[1..]);
      assert a == [a[0]] + a[1..];
      assert b == [b[0]] + b[1..];
    }
  }

  /** Ordinal order is not numeric order: "rId10" sorts before "rId2". */
  lemma RelationshipIdsSortAsStrings()
    ensures OrdinalLessEq("rId10", "rId2") && !OrdinalLessEq("rId2", "rId10")
  {
    assert "rId10"[1..] == "Id10" && "rId2"[1..] == "Id2";
    assert "Id10"[1..] == "d10" && "Id2"[1..] == "d2";
    assert "d10"[1..] == "10" && "d2"[1..] == "2";
  }

  function DigitChar(d: nat): (c: char)
    requires d < 10
    ensures '0' <= c <= '9'
  {
    "0123456789"[d]
  }

  /** int.ToString() of a non-negative integer: its decimal digits, no leading zero. */
  function Decimal(n: nat): (r: string)
    ensures |r| >= 1
    ensures forall i :: 0 <= i < |r| ==> '0' <= r[i] <= '9'
    ensures |r| > 1 ==> r[0] != '0'
  {
    if n < 10 then [DigitChar(n)] else Decimal(n / 10) + [DigitChar(n % 10)]
  }

  /** The value of a decimal digit character. */
  function DigitValue(c: char): (d: nat)
    requires '0' <= c <= '9'
    ensures d < 10
  {
    c as int - '0' as int
  }

  /** The number a string of decimal digits denotes, most significant digit first. */
  function DigitsValue(s: string): nat
    requires forall i :: 0 <= i < |s| ==> '0' <= s[i] <= '9'
  {
    if s == [] then 0 else 10 * DigitsValue(s[..|s| - 1]) + DigitValue(s[|s| - 1])
  }

  /** int.ToString() round trip: the decimal string of n denotes n. */
  lemma {:induction false} DecimalValue(n: nat)
    ensures DigitsValue(Decimal(n)) == n
  {
    var d := Decimal(n);
    if n < 10 {
      assert DigitValue(DigitChar(n)) == n;
    } else {
      assert d[..|d| - 1] == Decimal(n / 10);
      assert DigitValue(DigitChar(n % 10)) == n % 10;
      DecimalValue(n / 10);
    }
  }

  lemma DigitCharInjective(a: nat, b: nat)
    requires a < 10 && b < 10 && DigitChar(a) == DigitChar(b)
    ensures a == b
  {
  }

  /** Distinct integers have distinct decimal strings. */
  lemma {:induction false} DecimalInjective(a: nat, b: nat)
    requires Decimal(a) == Decimal(b)
    ensures a == b
  {
    var da, db := Decimal(a), Decimal(b);
    assert da[|da| - 1] == DigitChar(a % 10);
    assert db[|db| - 1] == DigitChar(b % 10);
    DigitCharInjective(a % 10, b % 10);
    if a >= 10 && b >= 10 {
      assert Decimal(a / 10) == da[..|da| - 1];
      assert Decimal(b / 10) == db[..|db| - 1];
      DecimalInjective(a / 10, b / 10);
    }
  }
}
