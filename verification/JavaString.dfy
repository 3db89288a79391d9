/** The parts of java.lang.String and of Java's 32-bit int arithmetic that the
    graph relies on: String.compareTo (the order that canonicalises an edge)
    and String.hashCode (the key of the edge registry). */
module JavaString {

  const TwoTo32: int := 0x1_0000_0000
  const MinInt32: int := -0x8000_0000
  const MaxInt32: int := 0x7fff_ffff

  /** Java's `int`. */
  type Int32 = x: int | -0x8000_0000 <= x <= 0x7fff_ffff

  /** Narrowing to 32-bit two's complement, as every int operation in Java does. */
  function Wrap32(x: int): (r: Int32)
    ensures MinInt32 <= x <= MaxInt32 ==> r == x
    ensures x - r == TwoTo32 * ((x - MinInt32) / TwoTo32)
  {
    (x - MinInt32) % TwoTo32 + MinInt32
  }

  /** Adding a multiple of 2^32 does not change the wrapped value. */
  lemma WrapAddMultiple(x: int, k: int)
    ensures Wrap32(x + TwoTo32 * k) == Wrap32(x)
  {
    var q, q' := (x - MinInt32) / TwoTo32, (x + TwoTo32 * k - MinInt32) / TwoTo32;
    assert Wrap32(x + TwoTo32 * k) - Wrap32(x) == TwoTo32 * (k - q' + q);
  }

  /** String.compareTo: the difference of the first pair of characters that
      differ, or else the difference of the lengths. */
  function CompareTo(a: string, b: string): (r: int)
    ensures r == 0 <==> a == b
    decreases |a|
  {
    if a == [] || b == [] then |a| - |b|
    else if a[0] != b[0] then a[0] as int - b[0] as int
    else
      assert a == [a[0]] + a[1..] && b == [b[0]] + b[1..];
      CompareTo(a[1..], b[1..])
  }

  /** Swapping the operands negates the result. */
  lemma {:induction false} CompareToAntisymmetric(a: string, b: string)
    ensures CompareTo(b, a) == -CompareTo(a, b)
    decreases |a|
  {
    if a != [] && b != [] && a[0] == b[0] {
      CompareToAntisymmetric(a[1..], b[1..]);
    }
  }

  /** `CompareTo(a, b) <= 0` is a transitive relation ... */
  lemma {:induction false} CompareToTransitive(a: string, b: string, c: string)
    requires CompareTo(a, b) <= 0 && CompareTo(b, c) <= 0
    ensures CompareTo(a, c) <= 0
    decreases |a|
  {
    if a != [] && b != [] && c != [] && a[0] == b[0] && b[0] == c[0] {
      CompareToTransitive(a[1..], b[1..], c[1..]);
    }
  }

  /** ... and a total order: any two strings are comparable, and two strings
      that are each at most the other are equal. */
  lemma CompareToTotal(a: string, b: string)
    ensures CompareTo(a, b) <= 0 || CompareTo(b, a) <= 0
    ensures CompareTo(a, b) <= 0 && CompareTo(b, a) <= 0 ==> a == b
  {
    CompareToAntisymmetric(a, b);
  }

  /** Dafny's `<=` on strings is the prefix order; a prefix is never greater
      under compareTo, but the converse does not hold. */
  lemma {:induction false} PrefixIsNotGreater(a: string, b: string)
    requires a <= b
    ensures CompareTo(a, b) <= 0
    decreases |a|
  {
    if a != [] {
      PrefixIsNotGreater(a[1..], b[1..]);
    }
  }

  /** String.hashCode: h = 31 * h + c over the characters, in int arithmetic. */
  function HashCode(s: string): Int32
    decreases |s|
  {
    if s == [] then 0 else Wrap32(31 * HashCode(s[..|s| - 1]) + s[|s| - 1] as int)
  }

  function Pow31(n: nat): (p: nat)
    ensures p >= 1
  {
    if n == 0 then 1 else 31 * Pow31(n - 1)
  }

  /** The formula documented for String.hashCode, in unbounded integers:
      s[0]*31^(n-1) + s[1]*31^(n-2) + ... + s[n-1]. */
  function Polynomial(s: string): int
    decreases |s|
  {
    if s == [] then 0 else s[0] as int * Pow31(|s| - 1) + Polynomial(s[1..])
  }

  lemma {:induction false} PolynomialSnoc(s: string, c: char)
    ensures Polynomial(s + [c]) == 31 * Polynomial(s) + c as int
    decreases |s|
  {
    if s != [] {
      assert (s + [c])[1..] == s[1..] + [c];
      PolynomialSnoc(s[1..], c);
      calc {
        Polynomial(s + [c]);
        s[0] as int * Pow31(|s|) + Polynomial(s[1..] + [c]);
        s[0] as int * (31 * Pow31(|s| - 1)) + 31 * Polynomial(s[1..]) + c as int;
        31 * (s[0] as int * Pow31(|s| - 1) + Polynomial(s[1..])) + c as int;
      }
    }
  }

  /** The incremental computation equals the documented formula wrapped to 32 bits. */
  lemma {:induction false} HashCodeIsPolynomial(s: string)
    ensures HashCode(s) == Wrap32(Polynomial(s))
    decreases |s|
  {
    if s != [] {
      var init, c := s[..|s| - 1], s[|s| - 1];
      assert s == init + [c];
      HashCodeIsPolynomial(init);
      PolynomialSnoc(init, c);
      var p := Polynomial(init);
      var q := (p - MinInt32) / TwoTo32;
      assert 31 * Wrap32(p) + c as int == 31 * p + c as int + TwoTo32 * (-31 * q);
      WrapAddMultiple(31 * p + c as int, -31 * q);
    }
  }

  /** Two strings whose hashes collide keep colliding under any common suffix. */
  lemma {:induction false} CollisionExtends(s: string, t: string, u: string)
    requires HashCode(s) == HashCode(t)
    ensures HashCode(s + u) == HashCode(t + u)
    decreases |u|
  {
    if u == [] {
      assert s + u == s && t + u == t;
    } else {
      var init := u[..|u| - 1];
      CollisionExtends(s, t, init);
      assert (s + u)[..|s + u| - 1] == s + init && (s + u)[|s + u| - 1] == u[|u| - 1];
      assert (t + u)[..|t + u| - 1] == t + init && (t + u)[|t + u| - 1] == u[|u| - 1];
    }
  }

  /** "Aa" and "BB" are distinct strings with the same hash. */
  lemma AaCollidesWithBB()
    ensures "Aa" != "BB" && HashCode("Aa") == HashCode("BB") == 2112
  {
    assert "Aa"[..1] == "A" && "BB"[..1] == "B";
    assert "A"[..0] == "" && "B"[..0] == "";
  }
}
