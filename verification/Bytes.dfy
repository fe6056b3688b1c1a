/** Bytes, fixed-width unsigned integers and their little-endian encoding. */
module Bytes {

  type byte = x: int | 0 <= x < 0x100
  type u16 = x: int | 0 <= x < 0x1_0000
  type u32 = x: int | 0 <= x < 0x1_0000_0000
  type u64 = x: int | 0 <= x < 0x1_0000_0000_0000_0000

  datatype Option<+T> = None | Some(value: T)

  datatype Result<+T, +E> = Ok(value: T) | Err(error: E)

  function Max(a: int, b: int): int {
    if a >= b then a else b
  }

  function Min(a: int, b: int): int {
    if a <= b then a else b
  }

  lemma DivMod(a: nat, c: nat)
    requires c > 0
    ensures a == (a / c) * c + a % c && 0 <= a % c < c
  {
  }

  lemma ModOf(a: nat, c: nat, q: nat, r: nat)
    requires c > 0 && a == q * c + r && r < c
    ensures a % c == r && a / c == q
  {
    DivMod(a, c);
    var q' := a / c;
    assert q' < q ==> (q' + 1) * c <= q * c;
    assert q' > q ==> (q + 1) * c <= q' * c;
  }

  /** Dividing twice is dividing once by the product. */
  lemma DivTwice(n: nat, k: nat, p: nat)
    requires k > 0 && p > 0
    ensures k * p > 0 && n / (k * p) == n / k / p
  {
    var m, r := n / k, n % k;
    var q, s := m / p, m % p;
    DivMod(n, k);
    DivMod(m, p);
    Regroup(q, k, p, s);
    AtMostTimes(s + 1, p, k);
    ModOf(n, k * p, q, s * k + r);
  }

  lemma Regroup(q: nat, k: nat, p: nat, s: nat)
    ensures (q * p + s) * k == q * (k * p) + s * k
  {
    calc {
      (q * p + s) * k;
      (q * p) * k + s * k;
      { Reorder(q, p, k); }
      q * (k * p) + s * k;
    }
  }

  lemma Reorder(q: nat, p: nat, k: nat)
    ensures (q * p) * k == q * (k * p)
  {
  }

  lemma AtMostTimes(a: nat, b: nat, k: nat)
    requires a <= b
    ensures a * k <= b * k && b * k == k * b && a * k == (a - 1) * k + k
  {
  }

  /** A slice of a slice is a slice of the whole. */
  lemma Slices<T>(s: seq<T>, a: nat, b: nat, c: nat, d: nat)
    requires a <= b <= |s| && c <= d <= b - a
    ensures s[a..b][c..d] == s[a + c..a + d]
  {
    forall i | 0 <= i < d - c
      ensures s[a..b][c..d][i] == s[a + c..a + d][i]
    {
      assert s[a..b][c..d][i] == s[a..b][c + i];
    }
  }

  lemma {:induction false} LeastExists(s: set<nat>)
    requires s != {}
    ensures exists x :: x in s && forall y | y in s :: x <= y
  {
    var x :| x in s;
    var rest := s - {x};
    if rest != {} {
      LeastExists(rest);
      var z :| z in rest && forall y | y in rest :: z <= y;
      LeastOf(s, x, z);
    } else {
      assert s == {x};
    }
  }

  lemma LeastOf(s: set<nat>, x: nat, z: nat)
    requires x in s && z in s && forall y | y in s - {x} :: z <= y
    ensures exists w :: w in s && forall y | y in s :: w <= y
  {
    var w := if x < z then x else z;
    assert forall y | y in s :: y == x || y in s - {x};
    assert w in s && forall y | y in s :: w <= y;
  }

  function Zeros(n: nat): (s: seq<byte>)
    ensures |s| == n
  {
    seq(n, _ => 0)
  }

  /** 256 to the power `width`: one more than the largest value of `width` bytes. */
  function Pow256(width: nat): (p: nat)
    ensures p > 0
  {
    if width == 0 then 1 else 256 * Pow256(width - 1)
  }

  /** The `width` low bytes of `n`, least significant first. */
  function ToLe(n: nat, width: nat): (s: seq<byte>)
    ensures |s| == width
  {
    if width == 0 then [] else [n % 256] + ToLe(n / 256, width - 1)
  }

  function FromLe(s: seq<byte>): (n: nat)
    ensures n < Pow256(|s|)
  {
    if s == [] then 0 else s[0] + 256 * FromLe(s[1..])
  }

  /** Decoding an encoding returns the value, for every value that fits the width. */
  lemma {:induction false} FromToLe(n: nat, width: nat)
    requires n < Pow256(width)
    ensures FromLe(ToLe(n, width)) == n
  {
    if width == 0 {
    } else {
      FromToLe(n / 256, width - 1);
      assert ToLe(n, width)[1..] == ToLe(n / 256, width - 1);
    }
  }

  /** Encoding a decoded value returns the same bytes. */
  lemma {:induction false} ToFromLe(s: seq<byte>)
    ensures ToLe(FromLe(s), |s|) == s
  {
    if s == [] {
    } else {
      ToFromLe(s[1..]);
      assert FromLe(s) / 256 == FromLe(s[1..]);
      assert s == [s[0]] + s[1..];
    }
  }

  lemma Widths()
    ensures Pow256(1) == 0x100 && Pow256(2) == 0x1_0000 && Pow256(4) == 0x1_0000_0000
    ensures Pow256(8) == 0x1_0000_0000_0000_0000
  {
    assert Pow256(3) == 0x100_0000;
    assert Pow256(5) == 0x100_0000_0000;
    assert Pow256(6) == 0x1_0000_0000_0000;
  }

  function ReadU16(s: seq<byte>, offset: nat): u16
    requires offset + 2 <= |s|
  {
    Widths();
    FromLe(s[offset..offset + 2])
  }

  function ReadU32(s: seq<byte>, offset: nat): u32
    requires offset + 4 <= |s|
  {
    Widths();
    FromLe(s[offset..offset + 4])
  }

  function ReadU64(s: seq<byte>, offset: nat): u64
    requires offset + 8 <= |s|
  {
    Widths();
    FromLe(s[offset..offset + 8])
  }
}
