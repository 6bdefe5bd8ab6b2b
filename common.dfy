/** Small value-level helpers shared by the modules of the model: an optional
    value (JavaScript's `null`), the `slice(-n)` suffix of an array, `reverse()`
    and occurrence counting. */
module Common {

  /** `None` stands for JavaScript's `null`. */
  datatype Option<+T> = None | Some(value: T)

  function Min(a: int, b: int): int { if a <= b then a else b }

  function Max(a: int, b: int): int { if a >= b then a else b }

  /** The last `n` elements of `s` (all of `s` when it is shorter). */
  function LastN<T>(s: seq<T>, n: nat): (r: seq<T>)
    ensures |r| == Min(|s|, n)
    ensures |s| <= n ==> r == s
    ensures |s| > n ==> r == s[|s| - n..]
  {
    if |s| <= n then s else s[|s| - n..]
  }

  /** Keeping the last `n` elements before or after appending gives the same result. */
  lemma LastNAppend<T>(s: seq<T>, t: seq<T>, n: nat)
    ensures LastN(LastN(s, n) + t, n) == LastN(s + t, n)
  {
    if |s| > n {
      var u := LastN(s, n);
      assert u + t == (s + t)[|s| - n..];
      var k := |u + t| - Min(|u + t|, n);
      assert (u + t)[k..] == (s + t)[|s| - n + k..];
    }
  }

  /** `Array.prototype.reverse` on a copy. */
  function Reverse<T>(s: seq<T>): seq<T>
  {
    if s == [] then [] else Reverse(s[1..]) + [s[0]]
  }

  lemma {:induction false} ReverseAt<T>(s: seq<T>)
    ensures |Reverse(s)| == |s|
    ensures forall i :: 0 <= i < |s| ==> Reverse(s)[i] == s[|s| - 1 - i]
  {
    if s != [] {
      ReverseAt(s[1..]);
    }
  }

  /** Number of occurrences of `x` in `s`. */
  function Count<T(==)>(s: seq<T>, x: T): nat
  {
    if s == [] then 0
    else Count(s[..|s| - 1], x) + (if s[|s| - 1] == x then 1 else 0)
  }

  lemma {:induction false} CountAbsent<T>(s: seq<T>, x: T)
    requires x !in s
    ensures Count(s, x) == 0
  {
    if s != [] {
      assert s[..|s| - 1] <= s;
      CountAbsent(s[..|s| - 1], x);
    }
  }

  // Real arithmetic

  /** For `q * t == a` with `t > 0`: `k * q <= 1` exactly when `k * a <= t`. */
  lemma RatioBelow(q: real, a: real, t: real, k: real)
    requires t > 0.0 && q * t == a
    ensures k * q <= 1.0 <==> k * a <= t
    ensures k * q >= 1.0 <==> k * a >= t
  {
    assert (k * q) * t == k * a;
    if k * a <= t {
      ScaleDown(k * q, t, 1.0);
    }
    if k * q <= 1.0 {
      ScaleUp(k * q, t, 1.0);
    }
    if k * a >= t {
      ScaleDown(1.0, t, k * q);
    }
    if k * q >= 1.0 {
      ScaleUp(1.0, t, k * q);
    }
  }

  lemma ScaleDown(x: real, t: real, c: real)
    requires t > 0.0 && x * t <= c * t
    ensures x <= c
  {
    assert (c - x) * t >= 0.0;
  }

  lemma ScaleUp(x: real, t: real, c: real)
    requires t > 0.0 && x <= c
    ensures x * t <= c * t
  {
    assert (c - x) * t >= 0.0;
  }
}
