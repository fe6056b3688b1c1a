/** What CRC-32C is, apart from how the register computes it: the remainder of a division of polynomials over GF(2).

A polynomial is given by the exponents of its terms. A message is read bit by bit, every byte from its least significant
bit on, the first bit having the highest power. It is multiplied by x^32, its first 32 bits are complemented, and the
checksum is the complement of the remainder, again with the highest power in the least significant bit. */
module Remainder {
  import opened Bytes
  import opened Crc

  /** The exponents of the Castagnoli generator. */
  const GENERATOR: set<nat> := {32, 28, 27, 26, 25, 23, 22, 20, 19, 18, 14, 13, 11, 10, 9, 8, 6, 0}

  predicate GeneratorTerm(e: nat) {
    e in GENERATOR
  }

  /** Bit `i` of a number. */
  predicate Bit(n: nat, i: nat) {
    n / Pow2(i) % 2 == 1
  }

  /** The message has a term of exponent `e`. */
  predicate MessageTerm(s: seq<byte>, e: nat) {
    e < 8 * |s| && Bit(s[|s| - 1 - e / 8], 7 - e % 8)
  }

  /** The dividend has a term of exponent `e`: the message before 32 zeros, all ones added to its first 32 bits. */
  predicate DividendTerm(s: seq<byte>, e: nat) {
    (8 * |s| <= e < 8 * |s| + 32) != (e >= 32 && MessageTerm(s, e - 32))
  }

  /** The remainder that the checksum `c` stands for has a term of exponent `e`. */
  predicate RemainderTerm(c: u32, e: nat) {
    e < 32 && !Bit(c, 31 - e)
  }

  /** The terms of `q` that contribute to exponent `e` of the product with the generator. */
  function Contributing(q: set<nat>, e: nat): set<nat> {
    set n | n in q && n <= e && GeneratorTerm(e - n)
  }

  /** The product of `q` and the generator has a term of exponent `e`. */
  predicate ProductTerm(q: set<nat>, e: nat) {
    |Contributing(q, e)| % 2 == 1
  }

  /** `q` is the quotient and `c` the complement of the remainder: dividend and remainder differ by the product. */
  ghost predicate Divides(s: seq<byte>, c: u32, q: set<nat>) {
    forall e: nat :: (DividendTerm(s, e) != RemainderTerm(c, e)) == ProductTerm(q, e)
  }

  /** For every message the checksum is the one number whose complement is the remainder. */
  lemma CrcIsRemainder(s: seq<byte>, c: u32)
    ensures c == Crc32c(s) <==> exists q :: Divides(s, c, q)
  {
    hide Divides;
    var q := Divided(s);
    if p :| Divides(s, c, p) {
      RemainderUnique(s, c, p, Crc32c(s), q);
    }
  }

  /** The checksum of nothing is zero. */
  lemma CrcOfNothing()
    ensures Crc32c([]) == 0
  {
    hide Crc32c;
    forall e: nat
      ensures (DividendTerm([], e) != RemainderTerm(0, e)) == ProductTerm({}, e)
    {
      assert Contributing({}, e) == {};
      ZeroBits(if e < 32 then 31 - e else 0);
    }
    assert Divides([], 0, {});
    CrcIsRemainder([], 0);
  }

  lemma ZeroBits(i: nat)
    ensures !Bit(0, i)
  {
  }

  // ---- Bits of numbers ----------------------------------------------------------------------

  lemma {:induction false} BitsAt(n: nat, width: nat, i: nat)
    requires i < width
    ensures Bits(n, width)[i] == Bit(n, i)
  {
    if i == 0 {
      assert Pow2(0) == 1;
    } else {
      BitsAt(n / 2, width - 1, i - 1);
      DivTwice(n, 2, Pow2(i - 1));
    }
  }

  /** The bits of a checksum are those of the complemented register. */
  lemma BitOfWord(w: word, i: nat)
    requires i < 32
    ensures Bit(FromBits(w), i) == w[i]
  {
    ToFromBits(w);
    BitsAt(FromBits(w), 32, i);
  }

  lemma SameBits(c: u32, d: u32)
    requires forall i: nat | i < 32 :: Bit(c, i) == Bit(d, i)
    ensures c == d
  {
    forall i: nat | i < 32
      ensures Bits(c, 32)[i] == Bits(d, 32)[i]
    {
      BitsAt(c, 32, i);
      BitsAt(d, 32, i);
    }
    assert Bits(c, 32) == Bits(d, 32);
    Pow2At32();
    OnesValue(32, Pow2(32));
    FromToBits(c, 32, FromBits(Ones(32)));
    FromToBits(d, 32, FromBits(Ones(32)));
  }

  /** The reflected constant holds the generator, its term x^32 left out. */
  lemma PolyIsGenerator(e: nat)
    ensures e < 32 ==> (Poly()[31 - e] <==> GeneratorTerm(e))
    ensures e >= 32 ==> (GeneratorTerm(e) <==> e == 32)
  {
    if e < 32 {
      PolyBits();
      assert Poly()[31 - e] == Bit(REFLECTED_POLY, 31 - e);
    }
  }

  /** The constant from its bits up, four at a time. */
  lemma PolyBits()
    ensures forall i: nat | i < 32 :: Bit(REFLECTED_POLY, i) <==> 31 - i in GENERATOR
  {
    Powers();
    forall i: nat | i < 32
      ensures Bit(REFLECTED_POLY, i) <==> 31 - i in GENERATOR
    {
      if i < 16 {
        LowPolyBits(i);
      } else {
        HighPolyBits(i);
      }
    }
  }

  lemma Powers()
    ensures Pow2(0) == 1 && Pow2(1) == 2 && Pow2(2) == 4 && Pow2(3) == 8 && Pow2(4) == 0x10 && Pow2(5) == 0x20
    ensures Pow2(6) == 0x40 && Pow2(7) == 0x80 && Pow2(8) == 0x100 && Pow2(9) == 0x200 && Pow2(10) == 0x400
    ensures Pow2(11) == 0x800 && Pow2(12) == 0x1000 && Pow2(13) == 0x2000 && Pow2(14) == 0x4000
    ensures Pow2(15) == 0x8000 && Pow2(16) == 0x1_0000 && Pow2(17) == 0x2_0000 && Pow2(18) == 0x4_0000
    ensures Pow2(19) == 0x8_0000 && Pow2(20) == 0x10_0000 && Pow2(21) == 0x20_0000 && Pow2(22) == 0x40_0000
    ensures Pow2(23) == 0x80_0000 && Pow2(24) == 0x100_0000 && Pow2(25) == 0x200_0000 && Pow2(26) == 0x400_0000
    ensures Pow2(27) == 0x800_0000 && Pow2(28) == 0x1000_0000 && Pow2(29) == 0x2000_0000
    ensures Pow2(30) == 0x4000_0000 && Pow2(31) == 0x8000_0000
  {
  }

  lemma LowPolyBits(i: nat)
    requires i < 16
    ensures Bit(REFLECTED_POLY, i) <==> 31 - i in GENERATOR
  {
    Powers();
  }

  lemma HighPolyBits(i: nat)
    requires 16 <= i < 32
    ensures Bit(REFLECTED_POLY, i) <==> 31 - i in GENERATOR
  {
    Powers();
  }

  // ---- The register divides ---------------------------------------------------------------------

  /** The register as a polynomial. */
  predicate RegisterTerm(w: word, e: nat) {
    e < 32 && w[31 - e]
  }

  /** A byte in the eight highest places of the register. */
  predicate ByteTerm(b: byte, e: nat) {
    24 <= e < 32 && Bit(b, 31 - e)
  }

  /** The dividend with byte `b` added in front of its end, times x^k. */
  predicate ShiftedTerm(s: seq<byte>, b: byte, k: nat, e: nat) {
    e >= k && (DividendTerm(s, e - k) != ByteTerm(b, e - k))
  }

  /** What has been absorbed and the register differ by the product of `q`. */
  ghost predicate Leaves(s: seq<byte>, w: word, q: set<nat>) {
    forall e: nat :: (DividendTerm(s, e) != RegisterTerm(w, e)) == ProductTerm(q, e)
  }

  /** The same in the middle of a byte. */
  ghost predicate LeavesAt(s: seq<byte>, b: byte, k: nat, w: word, q: set<nat>) {
    forall e: nat :: (ShiftedTerm(s, b, k, e) != RegisterTerm(w, e)) == ProductTerm(q, e)
  }

  lemma Divided(s: seq<byte>) returns (q: set<nat>)
    ensures Divides(s, Crc32c(s), q)
  {
    hide Register, ProductTerm, DividendTerm;
    q := Absorbed(s);
    var w := Register(Poly(), AllOnes(), s);
    forall e: nat
      ensures RemainderTerm(Crc32c(s), e) == RegisterTerm(w, e)
    {
      if e < 32 {
        BitOfWord(Not(w), 31 - e);
      }
    }
  }

  lemma {:induction false} Absorbed(s: seq<byte>) returns (q: set<nat>)
    ensures Leaves(s, Register(Poly(), AllOnes(), s), q)
    decreases |s|
  {
    hide Leaves, Absorb, Poly;
    if s == [] {
      q := {};
      StartsEmpty(s);
    } else {
      var g, b := s[..|s| - 1], s[|s| - 1];
      q := Absorbed(g);
      q := AbsorbsByte(g, b, Register(Poly(), AllOnes(), g), q);
      assert s == g + [b];
    }
  }

  lemma StartsEmpty(s: seq<byte>)
    requires s == []
    ensures Leaves(s, AllOnes(), {})
  {
    forall e: nat
      ensures (DividendTerm(s, e) != RegisterTerm(AllOnes(), e)) == ProductTerm({}, e)
    {
      assert Contributing({}, e) == {};
    }
  }

  lemma AbsorbsByte(s: seq<byte>, b: byte, w: word, q: set<nat>) returns (q': set<nat>)
    requires Leaves(s, w, q)
    ensures Leaves(s + [b], Absorb(Poly(), w, b), q')
  {
    hide Leaves, LeavesAt, ShiftBits, Xor, ByteBits;
    ByteAdded(s, b, w, q);
    q' := Shifts(s, b, Xor(w, ByteBits(b)), 8, q);
    ByteDone(s, b, Absorb(Poly(), w, b), q');
  }

  lemma ByteAdded(s: seq<byte>, b: byte, w: word, q: set<nat>)
    requires Leaves(s, w, q)
    ensures LeavesAt(s, b, 0, Xor(w, ByteBits(b)), q)
  {
    hide DividendTerm, ProductTerm, Bit;
    ByteHigh(b);
    forall e: nat
      ensures (ShiftedTerm(s, b, 0, e) != RegisterTerm(Xor(w, ByteBits(b)), e)) == ProductTerm(q, e)
    {
      if e < 32 {
        BitsAt(b, 32, 31 - e);
      }
    }
  }

  lemma ByteDone(s: seq<byte>, b: byte, w: word, q: set<nat>)
    requires LeavesAt(s, b, 8, w, q)
    ensures Leaves(s + [b], w, q)
  {
    hide ProductTerm;
    forall e: nat
      ensures DividendTerm(s + [b], e) == ShiftedTerm(s, b, 8, e)
    {
      DividendStep(s, b, e);
    }
  }

  /** One byte more: everything moves up by eight, and the byte takes the eight places above the zeros. */
  lemma DividendStep(s: seq<byte>, b: byte, e: nat)
    ensures DividendTerm(s + [b], e) == ShiftedTerm(s, b, 8, e)
  {
    hide Bit;
    var t := s + [b];
    if 40 <= e < 32 + 8 * |t| {
      var m := e - 32;
      assert m / 8 == (m - 8) / 8 + 1 && m % 8 == (m - 8) % 8;
      assert t[|t| - 1 - m / 8] == s[|s| - 1 - (m - 8) / 8];
    } else if 32 <= e < 40 {
      assert (e - 32) / 8 == 0 && (e - 32) % 8 == e - 32;
    }
  }

  lemma {:induction false} Shifts(s: seq<byte>, b: byte, w: word, n: nat, q: set<nat>) returns (q': set<nat>)
    requires LeavesAt(s, b, 0, w, q)
    ensures LeavesAt(s, b, n, ShiftBits(Poly(), w, n), q')
  {
    hide LeavesAt, ShiftBit, Poly;
    if n == 0 {
      q' := q;
    } else {
      q' := Shifts(s, b, w, n - 1, q);
      q' := ShiftsOnce(s, b, n - 1, ShiftBits(Poly(), w, n - 1), q');
    }
  }

  /** One shift multiplies by x and takes the generator away when x^32 appears. */
  lemma ShiftsOnce(s: seq<byte>, b: byte, k: nat, w: word, q: set<nat>) returns (q': set<nat>)
    requires LeavesAt(s, b, k, w, q)
    ensures LeavesAt(s, b, k + 1, ShiftBit(Poly(), w), q')
  {
    hide ProductTerm, DividendTerm, ByteTerm, Poly, GeneratorTerm;
    q' := Raised(q) + if w[0] then {0} else {};
    forall e: nat
      ensures (ShiftedTerm(s, b, k + 1, e) != RegisterTerm(ShiftBit(Poly(), w), e)) == ProductTerm(q', e)
    {
      RaisedProduct(q, w[0], e);
      PolyIsGenerator(e);
      if e > 0 {
        assert (ShiftedTerm(s, b, k, e - 1) != RegisterTerm(w, e - 1)) == ProductTerm(q, e - 1);
      }
    }
  }

  /** Times x. */
  function Raised(q: set<nat>): set<nat> {
    set n | n in q :: n + 1
  }

  lemma RaisedProduct(q: set<nat>, one: bool, e: nat)
    ensures ProductTerm(Raised(q) + (if one then {0} else {}), e)
            == ((e > 0 && ProductTerm(q, e - 1)) != (one && GeneratorTerm(e)))
  {
    hide GeneratorTerm, Contributing, Raised;
    var low: set<nat> := if one && GeneratorTerm(e) then {0} else {};
    var high: set<nat> := if e > 0 then Raised(Contributing(q, e - 1)) else {};
    RaisedParts(q, one, e, high, low);
    assert |high + low| == |high| + |low|;
    if e > 0 {
      RaisedSize(Contributing(q, e - 1));
    }
  }

  /** What contributes to exponent `e` of x * q, and of x * q + 1. */
  lemma RaisedParts(q: set<nat>, one: bool, e: nat, high: set<nat>, low: set<nat>)
    requires low == if one && GeneratorTerm(e) then {0} else {}
    requires high == if e > 0 then Raised(Contributing(q, e - 1)) else {}
    ensures Contributing(Raised(q) + (if one then {0} else {}), e) == high + low && high !! low
  {
    hide GeneratorTerm, Raised;
    var r := Raised(q) + if one then {0} else {};
    forall n: nat
      ensures n in Contributing(r, e) <==> n in high + low
      ensures n in high ==> n > 0
    {
      RaisedMember(q, n);
      if e > 0 {
        RaisedMember(Contributing(q, e - 1), n);
      }
    }
  }

  lemma RaisedMember(q: set<nat>, n: nat)
    ensures n in Raised(q) <==> n > 0 && n - 1 in q
  {
    if n > 0 && n - 1 in q {
      assert (n - 1) + 1 in Raised(q);
    }
  }

  lemma {:induction false} RaisedSize(a: set<nat>)
    ensures |Raised(a)| == |a|
  {
    if a == {} {
    } else {
      var n :| n in a;
      RaisedSize(a - {n});
      forall m: nat
        ensures m in Raised(a) <==> m in Raised(a - {n}) + {n + 1}
      {
        RaisedMember(a, m);
        RaisedMember(a - {n}, m);
      }
      RaisedMember(a - {n}, n + 1);
      assert Raised(a) == Raised(a - {n}) + {n + 1};
    }
  }

  // ---- There is only one remainder --------------------------------------------------------------

  lemma RemainderUnique(s: seq<byte>, c: u32, q: set<nat>, d: u32, r: set<nat>)
    requires Divides(s, c, q) && Divides(s, d, r)
    ensures c == d
  {
    hide DividendTerm, ProductTerm;
    assert q == r by { QuotientUnique(s, c, q, d, r); }
    forall i: nat | i < 32
      ensures Bit(c, i) == Bit(d, i)
    {
      assert RemainderTerm(c, 31 - i) == RemainderTerm(d, 31 - i);
    }
    SameBits(c, d);
  }

  /** The highest term in which two quotients differ would show above the remainder. */
  lemma QuotientUnique(s: seq<byte>, c: u32, q: set<nat>, d: u32, r: set<nat>)
    requires Divides(s, c, q) && Divides(s, d, r)
    ensures q == r
  {
    hide DividendTerm, ProductTerm;
    var diff := (q - r) + (r - q);
    if diff != {} {
      var m := Highest(diff);
      AboveAlike(s, c, q, d, r, m + 32);
      LeadingTerm(q, r, m);
    }
  }

  /** Above the remainder both products are the dividend. */
  lemma AboveAlike(s: seq<byte>, c: u32, q: set<nat>, d: u32, r: set<nat>, e: nat)
    requires Divides(s, c, q) && Divides(s, d, r) && e >= 32
    ensures ProductTerm(q, e) == ProductTerm(r, e)
  {
    hide DividendTerm, ProductTerm;
  }

  lemma {:induction false} Highest(a: set<nat>) returns (m: nat)
    requires a != {}
    ensures m in a && forall n | n in a :: n <= m
  {
    var x :| x in a;
    var rest := a - {x};
    assert a == rest + {x};
    if rest == {} {
      m := x;
    } else {
      m := Highest(rest);
      m := if m < x then x else m;
    }
  }

  lemma LeadingTerm(q: set<nat>, r: set<nat>, m: nat)
    requires m in (q - r) + (r - q) && forall n | n in (q - r) + (r - q) :: n <= m
    ensures ProductTerm(q, m + 32) != ProductTerm(r, m + 32)
  {
    hide GeneratorTerm;
    var a, b := Contributing(q, m + 32), Contributing(r, m + 32);
    PolyIsGenerator(32);
    forall n: nat | n != m
      ensures n in a <==> n in b
    {
      if n < m {
        PolyIsGenerator(m + 32 - n);
      } else {
        assert n in q <==> n in r;
      }
    }
    if m in q {
      assert a == b + {m} && m !in b;
    } else {
      assert b == a + {m} && m !in a;
    }
  }
}
