/** CRC-32C, the polynomial of section 12.1 of RFC 3720, in the reflected form the record trailer uses.

The 32-bit register is a vector of its bits, least significant first, so that exclusive or is pointwise and a right
shift moves every bit down by one place. */
module Crc {
  import opened Bytes

  type word = w: seq<bool> | |w| == 32
    witness [
      false, false, false, false, false, false, false, false,
      false, false, false, false, false, false, false, false,
      false, false, false, false, false, false, false, false,
      false, false, false, false, false, false, false, false]

  const REFLECTED_POLY: u32 := 0x82F6_3B78

  function Ones(n: nat): (s: seq<bool>)
    ensures |s| == n && forall i | 0 <= i < n :: s[i]
  {
    if n == 0 then [] else [true] + Ones(n - 1)
  }

  /** The `width` low bits of `n`, least significant first. */
  function Bits(n: nat, width: nat): (s: seq<bool>)
    ensures |s| == width
    decreases width, n
  {
    if width == 0 then [] else [n % 2 == 1] + Bits(n / 2, width - 1)
  }

  function FromBits(s: seq<bool>): nat {
    if s == [] then 0 else (if s[0] then 1 else 0) + 2 * FromBits(s[1..])
  }

  lemma {:induction false} FromToBits(n: nat, width: nat, bound: nat)
    requires bound == FromBits(Ones(width)) && n <= bound
    ensures FromBits(Bits(n, width)) == n
  {
    if width == 0 {
    } else {
      var ones := Ones(width);
      assert ones[1..] == Ones(width - 1);
      FromToBits(n / 2, width - 1, FromBits(ones[1..]));
      assert Bits(n, width)[1..] == Bits(n / 2, width - 1);
    }
  }

  lemma {:induction false} ToFromBits(s: seq<bool>)
    ensures Bits(FromBits(s), |s|) == s
  {
    if s == [] {
    } else {
      ToFromBits(s[1..]);
      assert FromBits(s) / 2 == FromBits(s[1..]);
      assert s == [s[0]] + s[1..];
    }
  }

  function ByteBits(b: byte): word {
    Bits(b, 32)
  }

  /** The polynomial's bits. */
  function Poly(): word {
    seq(32, i requires 0 <= i < 32 => REFLECTED_POLY / Pow2(i) % 2 == 1)
  }

  function Xor(a: word, b: word): word {
    seq(32, i requires 0 <= i < 32 => a[i] != b[i])
  }

  function Not(a: word): word {
    seq(32, i requires 0 <= i < 32 => !a[i])
  }

  function ShiftRight(a: word): word {
    seq(32, i requires 0 <= i < 32 => i < 31 && a[i + 1])
  }

  /** One shift of the register: the polynomial is added when the bit shifted out is set. */
  function ShiftBit(poly: word, crc: word): word {
    if crc[0] then Xor(ShiftRight(crc), poly) else ShiftRight(crc)
  }

  function ShiftBits(poly: word, crc: word, n: nat): word
    decreases n, crc
  {
    if n == 0 then crc else ShiftBit(poly, ShiftBits(poly, crc, n - 1))
  }

  /** Absorbs one byte: exclusive or into the low bits, then eight shifts. */
  function Absorb(poly: word, crc: word, b: byte): word {
    ShiftBits(poly, Xor(crc, ByteBits(b)), 8)
  }

  function AllOnes(): word {
    seq(32, i requires 0 <= i < 32 => true)
  }

  /** The register after absorbing `s`, starting from `crc`. */
  function Register(poly: word, crc: word, s: seq<byte>): word
    decreases |s|
  {
    if s == [] then crc else Absorb(poly, Register(poly, crc, s[..|s| - 1]), s[|s| - 1])
  }

  /** The checksum as a 32-bit number. */
  function Crc32c(s: seq<byte>): (c: u32)
  {
    WordBound(Not(Register(Poly(), AllOnes(), s)));
    FromBits(Not(Register(Poly(), AllOnes(), s)))
  }

  lemma {:induction false} BitsBound(s: seq<bool>, bound: nat)
    requires bound == FromBits(Ones(|s|))
    ensures FromBits(s) <= bound
  {
    if s == [] {
    } else {
      var ones := Ones(|s|);
      assert ones[1..] == Ones(|s| - 1);
      BitsBound(s[1..], FromBits(ones[1..]));
    }
  }

  /** The largest value of `width` bits, for the widths the format uses. */
  lemma {:induction false} OnesValue(width: nat, pow: nat)
    requires pow == Pow2(width)
    ensures FromBits(Ones(width)) == pow - 1
  {
    if width == 0 {
    } else {
      var ones := Ones(width);
      assert ones[1..] == Ones(width - 1);
      OnesValue(width - 1, Pow2(width - 1));
    }
  }

  function Pow2(n: nat): (p: nat)
    ensures p > 0
  {
    if n == 0 then 1 else 2 * Pow2(n - 1)
  }

  lemma Pow2At32()
    ensures Pow2(32) == 0x1_0000_0000
  {
    assert Pow2(8) == 0x100;
    assert Pow2(16) == 0x1_0000;
    assert Pow2(24) == 0x100_0000;
  }

  lemma WordBound(w: word)
    ensures FromBits(w) < 0x1_0000_0000
  {
    Pow2At32();
    OnesValue(32, Pow2(32));
    BitsBound(w, FromBits(Ones(32)));
  }

  lemma NotInjective(a: word, b: word)
    requires Not(a) == Not(b)
    ensures a == b
  {
    assert forall i | 0 <= i < 32 :: a[i] == !Not(a)[i] && b[i] == !Not(b)[i];
  }

  /** Equal checksums come from equal registers. */
  lemma CrcSeparates(s: seq<byte>, t: seq<byte>)
    requires Crc32c(s) == Crc32c(t)
    ensures Register(Poly(), AllOnes(), s) == Register(Poly(), AllOnes(), t)
  {
    var a, b := Register(Poly(), AllOnes(), s), Register(Poly(), AllOnes(), t);
    ToFromBits(Not(a));
    ToFromBits(Not(b));
    NotInjective(a, b);
  }

  /** The inner loop of the implementation: eight conditional shifts. */
  method ShiftIn(poly: word, start: word) returns (crc: word)
    ensures crc == ShiftBits(poly, start, 8)
  {
    crc := start;
    for k := 0 to 8
      invariant crc == ShiftBits(poly, start, k)
    {
      var lowBit := crc[0];
      crc := ShiftRight(crc);
      if lowBit {
        crc := Xor(crc, poly);
      }
    }
  }

  /** The outer loop of the implementation computes the checksum. */
  method ComputeCrc32c(bytes: seq<byte>) returns (c: u32)
    ensures c == Crc32c(bytes)
  {
    var crc := AllOnes();
    for i := 0 to |bytes|
      invariant crc == Register(Poly(), AllOnes(), bytes[..i])
    {
      assert bytes[..i + 1][..i] == bytes[..i];
      crc := ShiftIn(Poly(), Xor(crc, ByteBits(bytes[i])));
    }
    assert bytes[..|bytes|] == bytes;
    WordBound(Not(crc));
    c := FromBits(Not(crc));
  }

  // ---- Burst detection -------------------------------------------------

  /** Bit `i` of the difference of two words. */
  predicate Differ(x: word, y: word, i: nat)
    requires i < 32
  {
    x[i] != y[i]
  }

  /** Bits `lo` up to `hi` of the two words agree. */
  predicate Agree(x: word, y: word, lo: nat, hi: nat)
    requires hi <= 32
  {
    forall i | lo <= i < hi :: x[i] == y[i]
  }

  lemma PolyTop()
    ensures Poly()[31]
  {
    assert Pow2(8) == 0x100;
    assert Pow2(16) == 0x1_0000;
    assert Pow2(24) == 0x100_0000;
    assert Pow2(31) == 0x8000_0000;
  }

  /** Read backwards: results that agree in the top bit came from words that agree in the bottom bit, and the other
  differences have moved down one place. */
  lemma UnshiftBit(poly: word, x: word, y: word)
    requires poly[31]
    requires !Differ(ShiftBit(poly, x), ShiftBit(poly, y), 31)
    ensures !Differ(x, y, 0)
    ensures forall i: nat | i < 31 :: Differ(x, y, i + 1) == Differ(ShiftBit(poly, x), ShiftBit(poly, y), i)
  {
  }

  /** The same over `n` shifts. */
  lemma {:induction false} Unshift(poly: word, x: word, y: word, n: nat)
    requires poly[31]
    requires n <= 32
    requires Agree(ShiftBits(poly, x, n), ShiftBits(poly, y, n), 32 - n, 32)
    ensures Agree(x, y, 0, n)
    ensures forall i: nat | i < 32 - n :: Differ(x, y, i + n) == Differ(ShiftBits(poly, x, n), ShiftBits(poly, y, n), i)
  {
    if n == 0 {
    } else {
      var x', y' := ShiftBits(poly, x, n - 1), ShiftBits(poly, y, n - 1);
      UnshiftBit(poly, x', y');
      forall i: nat | 32 - (n - 1) <= i < 32
        ensures x'[i] == y'[i]
      {
        assert Differ(x', y', i - 1 + 1) == Differ(ShiftBit(poly, x'), ShiftBit(poly, y'), i - 1);
      }
      Unshift(poly, x, y, n - 1);
    }
  }

  /** Bits of a byte above the eighth are clear. */
  lemma {:induction false} HighBitsClear(n: nat, width: nat, k: nat)
    requires n < Pow2(k)
    ensures forall i: nat | k <= i < width :: !Bits(n, width)[i]
  {
    if width == 0 {
    } else {
      if k == 0 {
        assert n == 0;
        HighBitsClear(0, width - 1, 0);
      } else {
        HighBitsClear(n / 2, width - 1, k - 1);
      }
      assert Bits(n, width)[1..] == Bits(n / 2, width - 1);
    }
  }

  /** Two registers agree above bit `lo`. */
  predicate AgreeAbove(x: word, y: word, lo: nat)
  {
    forall i | lo <= i < 32 :: x[i] == y[i]
  }

  /** Absorbing a byte on each side with results that agree from bit `lo` on: the registers before it agree from bit
  `lo + 8` on, their differences below are the shifted ones and the low byte differs as the two bytes do. */
  lemma Unabsorb(poly: word, x: word, y: word, b: byte, c: byte, lo: nat)
    requires poly[31]
    requires lo <= 24 && AgreeAbove(Absorb(poly, x, b), Absorb(poly, y, c), lo)
    ensures AgreeAbove(x, y, lo + 8)
    ensures forall i: nat | i < 24 :: Differ(x, y, i + 8) == Differ(Absorb(poly, x, b), Absorb(poly, y, c), i)
    ensures forall i: nat | i < 8 :: Differ(x, y, i) == Differ(ByteBits(b), ByteBits(c), i)
  {
    var u, v := Xor(x, ByteBits(b)), Xor(y, ByteBits(c));
    Unshift(poly, u, v, 8);
    ByteHigh(b);
    ByteHigh(c);
    forall i: nat | i < 24
      ensures Differ(x, y, i + 8) == Differ(Absorb(poly, x, b), Absorb(poly, y, c), i)
    {
      assert Differ(u, v, i + 8) == Differ(ShiftBits(poly, u, 8), ShiftBits(poly, v, 8), i);
    }
    forall i: nat | i < 8
      ensures Differ(x, y, i) == Differ(ByteBits(b), ByteBits(c), i)
    {
      assert u[i] == v[i];
    }
    forall i: nat | lo + 8 <= i < 32
      ensures x[i] == y[i]
    {
      assert Differ(x, y, (i - 8) + 8) == Differ(Absorb(poly, x, b), Absorb(poly, y, c), i - 8);
    }
  }

  lemma ByteHigh(b: byte)
    ensures forall i: nat | 8 <= i < 32 :: !ByteBits(b)[i]
  {
    assert Pow2(8) == 0x100;
    HighBitsClear(b, 32, 8);
  }

  lemma ByteBitsInjective(b: byte, c: byte)
    requires forall i: nat | i < 8 :: !Differ(ByteBits(b), ByteBits(c), i)
    ensures b == c
  {
    ByteHigh(b);
    ByteHigh(c);
    forall i: nat | i < 32
      ensures ByteBits(b)[i] == ByteBits(c)[i]
    {
      if i < 8 {
        assert !Differ(ByteBits(b), ByteBits(c), i);
      }
    }
    assert ByteBits(b) == ByteBits(c);
    Pow2At32();
    OnesValue(32, Pow2(32));
    FromToBits(b, 32, FromBits(Ones(32)));
    FromToBits(c, 32, FromBits(Ones(32)));
  }

  lemma AbsorbInjective(poly: word, x: word, y: word, b: byte)
    requires poly[31]
    requires Absorb(poly, x, b) == Absorb(poly, y, b)
    ensures x == y
  {
    Unabsorb(poly, x, y, b, b, 0);
    assert forall i: nat | i < 8 :: !Differ(ByteBits(b), ByteBits(b), i);
    forall i: nat | i < 32
      ensures x[i] == y[i]
    {
      if i >= 8 {
        assert Differ(x, y, (i - 8) + 8) == Differ(Absorb(poly, x, b), Absorb(poly, y, b), i - 8);
      } else {
        assert Differ(x, y, i) == Differ(ByteBits(b), ByteBits(b), i);
      }
    }
  }

  /** Tracing a run of at most four bytes back on both sides: if the results agree from bit `lo` on, the starting
  registers agree above the bits the run can reach, and below them they differ exactly as the bytes and the results
  do. */
  lemma {:induction false} TraceBack(poly: word, x: word, y: word, s: seq<byte>, t: seq<byte>, lo: nat)
    requires poly[31]
    requires |s| == |t| && lo + 8 * |s| <= 32
    requires AgreeAbove(Register(poly, x, s), Register(poly, y, t), lo)
    ensures AgreeAbove(x, y, lo + 8 * |s|)
    ensures forall i: nat | i < lo :: Differ(x, y, i + 8 * |s|) == Differ(Register(poly, x, s), Register(poly, y, t), i)
    ensures forall j: nat, i: nat | j < |s| && i < 8 ::
              Differ(x, y, 8 * j + i) == Differ(ByteBits(s[j]), ByteBits(t[j]), i)
  {
    if s == [] {
    } else {
      var k := |s| - 1;
      var x', y' := Register(poly, x, s[..k]), Register(poly, y, t[..k]);
      Unabsorb(poly, x', y', s[k], t[k], lo);
      TraceBack(poly, x, y, s[..k], t[..k], lo + 8);
      forall i: nat | i < lo
        ensures Differ(x, y, i + 8 * |s|) == Differ(Register(poly, x, s), Register(poly, y, t), i)
      {
        assert Differ(x, y, (i + 8) + 8 * k) == Differ(x', y', i + 8);
      }
      forall j: nat, i: nat | j < |s| && i < 8
        ensures Differ(x, y, 8 * j + i) == Differ(ByteBits(s[j]), ByteBits(t[j]), i)
      {
        if j == k {
          assert Differ(x, y, i + 8 * k) == Differ(x', y', i);
        } else {
          assert s[..k][j] == s[j] && t[..k][j] == t[j];
          assert Differ(x, y, 8 * j + i) == Differ(ByteBits(s[..k][j]), ByteBits(t[..k][j]), i);
        }
      }
    }
  }

  /** At most four bytes cannot collide: from one register, different bytes lead to different registers. */
  lemma WindowInjective(poly: word, x: word, s: seq<byte>, t: seq<byte>)
    requires poly[31]
    requires |s| == |t| <= 4 && Register(poly, x, s) == Register(poly, x, t)
    ensures s == t
  {
    TraceBack(poly, x, x, s, t, 0);
    forall j: nat | j < |s|
      ensures s[j] == t[j]
    {
      forall i: nat | i < 8
        ensures !Differ(ByteBits(s[j]), ByteBits(t[j]), i)
      {
        assert Differ(x, x, 8 * j + i) == Differ(ByteBits(s[j]), ByteBits(t[j]), i);
      }
      ByteBitsInjective(s[j], t[j]);
    }
  }

  lemma {:induction false} RegisterConcat(poly: word, x: word, s: seq<byte>, t: seq<byte>)
    ensures Register(poly, x, s + t) == Register(poly, Register(poly, x, s), t)
    decreases |t|
  {
    if t == [] {
      assert s + t == s;
    } else {
      var k := |t| - 1;
      RegisterConcat(poly, x, s, t[..k]);
      assert (s + t)[..|s + t| - 1] == s + t[..k];
    }
  }

  /** A common suffix is a bijection of the register. */
  lemma {:induction false} SuffixInjective(poly: word, x: word, y: word, s: seq<byte>)
    requires poly[31]
    requires Register(poly, x, s) == Register(poly, y, s)
    ensures x == y
    decreases |s|
  {
    if s == [] {
    } else {
      var k := |s| - 1;
      AbsorbInjective(poly, Register(poly, x, s[..k]), Register(poly, y, s[..k]), s[k]);
      SuffixInjective(poly, x, y, s[..k]);
    }
  }

  /** No alteration confined to four consecutive bytes keeps the checksum. */
  lemma BurstDetected(prefix: seq<byte>, burst: seq<byte>, altered: seq<byte>, suffix: seq<byte>)
    requires |burst| == |altered| <= 4 && burst != altered
    ensures Crc32c(prefix + burst + suffix) != Crc32c(prefix + altered + suffix)
  {
    if Crc32c(prefix + burst + suffix) == Crc32c(prefix + altered + suffix) {
      PolyTop();
      CrcSeparates(prefix + burst + suffix, prefix + altered + suffix);
      RegisterConcat(Poly(), AllOnes(), prefix + burst, suffix);
      RegisterConcat(Poly(), AllOnes(), prefix + altered, suffix);
      RegisterConcat(Poly(), AllOnes(), prefix, burst);
      RegisterConcat(Poly(), AllOnes(), prefix, altered);
      SuffixInjective(Poly(), Register(Poly(), AllOnes(), prefix + burst),
                      Register(Poly(), AllOnes(), prefix + altered), suffix);
      WindowInjective(Poly(), Register(Poly(), AllOnes(), prefix), burst, altered);
    }
  }
}
