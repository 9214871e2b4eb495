/** Unsigned machine words as natural numbers, with C's bitwise operators defined
    bit by bit, and bit reversal (`rev`, src/dict.c:164-172). */
module Words {

  function Pow2(n: nat): (r: nat)
    ensures r >= 1
  {
    if n == 0 then 1 else 2 * Pow2(n - 1)
  }

  const WORD_BITS: nat := 64
  const WORD: nat := 0x1_0000_0000_0000_0000

  /** C's `unsigned long`. */
  type word = v: nat | v < WORD

  /** Bit `i` of `v`, bit 0 being the least significant. */
  predicate Bit(v: nat, i: nat)
    decreases i
  {
    if i == 0 then v % 2 == 1 else Bit(v / 2, i - 1)
  }

  function And(a: nat, b: nat): (r: nat)
    ensures r <= a && r <= b
  {
    if a == 0 || b == 0 then 0
    else 2 * And(a / 2, b / 2) + (if a % 2 == 1 && b % 2 == 1 then 1 else 0)
  }

  function Or(a: nat, b: nat): (r: nat)
    decreases a + b
  {
    if a == 0 && b == 0 then 0
    else 2 * Or(a / 2, b / 2) + (if a % 2 == 1 || b % 2 == 1 then 1 else 0)
  }

  function Xor(a: nat, b: nat): (r: nat)
    decreases a + b
  {
    if a == 0 && b == 0 then 0
    else 2 * Xor(a / 2, b / 2) + (if a % 2 != b % 2 then 1 else 0)
  }

  function Not(v: word): word {
    WORD - 1 - v
  }

  function Increment(v: word): word {
    (v + 1) % WORD
  }

  function Shr(v: nat, s: nat): (r: nat)
    ensures r <= v
    decreases s
  {
    if s == 0 then v else Shr(v / 2, s - 1)
  }

  function Shl(v: word, s: nat): word
    decreases s
  {
    if s == 0 then v else Shl(2 * v % WORD, s - 1)
  }

  /** The low `k` bits of `v`. */
  function Low(v: nat, k: nat): (r: nat)
    ensures r < Pow2(k) && r <= v
    decreases k
  {
    if k == 0 then 0 else v % 2 + 2 * Low(v / 2, k - 1)
  }

  /** The low `n` bits of `v` in reverse order. */
  function Reversed(v: nat, n: nat): (r: nat)
    decreases n
  {
    if n == 0 then 0
    else (if v % 2 == 1 then Pow2(n - 1) else 0) + Reversed(v / 2, n - 1)
  }

  // ---------- Bits of the operators ----------

  lemma ByteIsPow2()
    ensures Pow2(8) == 256
  {
  }

  lemma WordIsPow2()
    ensures WORD == Pow2(WORD_BITS)
  {
    hide Pow2;
    ByteIsPow2();
    Pow2Add(8, 8);
    Pow2Add(16, 16);
    Pow2Add(32, 32);
  }

  lemma {:induction false} Pow2Add(a: nat, b: nat)
    ensures Pow2(a + b) == Pow2(a) * Pow2(b)
  {
    if a > 0 {
      Pow2Add(a - 1, b);
      assert Pow2(a + b) == 2 * (Pow2(a - 1) * Pow2(b));
    }
  }

  lemma {:induction false} Pow2Mono(a: nat, b: nat)
    requires a <= b
    ensures Pow2(a) <= Pow2(b)
  {
    if a < b { Pow2Mono(a, b - 1); }
  }

  lemma {:induction false} ZeroBit(i: nat)
    ensures !Bit(0, i)
  {
    if i > 0 { ZeroBit(i - 1); }
  }

  lemma {:induction false} AndBit(a: nat, b: nat, i: nat)
    ensures Bit(And(a, b), i) == (Bit(a, i) && Bit(b, i))
    decreases i
  {
    if a == 0 || b == 0 {
      ZeroBit(i);
    } else if i > 0 {
      AndBit(a / 2, b / 2, i - 1);
    }
  }

  lemma {:induction false} OrBit(a: nat, b: nat, i: nat)
    ensures Bit(Or(a, b), i) == (Bit(a, i) || Bit(b, i))
    decreases i
  {
    if a == 0 && b == 0 {
      ZeroBit(i);
    } else if i > 0 {
      OrBit(a / 2, b / 2, i - 1);
    }
  }

  lemma {:induction false} XorBit(a: nat, b: nat, i: nat)
    ensures Bit(Xor(a, b), i) == (Bit(a, i) != Bit(b, i))
    decreases i
  {
    if a == 0 && b == 0 {
      ZeroBit(i);
    } else if i > 0 {
      XorBit(a / 2, b / 2, i - 1);
    }
  }

  lemma {:induction false} ShrBit(v: nat, s: nat, i: nat)
    ensures Bit(Shr(v, s), i) == Bit(v, i + s)
    decreases s
  {
    if s > 0 { ShrBit(v / 2, s - 1, i); }
  }

  /** Reducing modulo a power of two keeps the bits below it. */
  lemma {:induction false} ModBit(v: nat, n: nat, i: nat)
    requires i < n
    ensures Bit(v % Pow2(n), i) == Bit(v, i)
    decreases i
  {
    ModHalf(v, n);
    if i > 0 { ModBit(v / 2, n - 1, i - 1); }
  }

  lemma ModHalf(v: nat, n: nat)
    requires n > 0
    ensures (v % Pow2(n)) % 2 == v % 2
    ensures (v % Pow2(n)) / 2 == (v / 2) % Pow2(n - 1)
  {
    var p := Pow2(n - 1);
    DoubleMod(v, p);
    assert Pow2(n) == 2 * p;
    DoubledHalf(v / 2 % p, v % 2);
  }

  lemma DoubledHalf(a: nat, b: nat)
    requires b < 2
    ensures (2 * a + b) / 2 == a && (2 * a + b) % 2 == b
  {
  }

  lemma DoubleMod(v: nat, p: nat)
    requires p > 0
    ensures v % (2 * p) == 2 * (v / 2 % p) + v % 2
  {
    var q, r := (v / 2) / p, (v / 2) % p;
    assert v / 2 == q * p + r;
    assert v == q * (2 * p) + (2 * r + v % 2);
    DivModUnique(v, 2 * p, q, 2 * r + v % 2);
  }

  lemma MulMono(a: nat, b: nat, d: nat)
    requires a <= b
    ensures a * d <= b * d
  {
  }

  lemma DivModUnique(v: nat, d: nat, q: nat, r: nat)
    requires d > 0 && r < d && v == q * d + r
    ensures v / d == q && v % d == r
  {
    var q' := v / d;
    assert q' * d <= v < q' * d + d;
    if q' < q { MulMono(q' + 1, q, d); }
    if q < q' { MulMono(q + 1, q', d); }
  }

  lemma {:induction false} ShlBit(v: word, s: nat, i: nat)
    requires i < WORD_BITS
    ensures Bit(Shl(v, s), i) == (i >= s && Bit(v, i - s))
    decreases s
  {
    if s > 0 {
      ShlBit(2 * v % WORD, s - 1, i);
      if i >= s - 1 {
        WordIsPow2();
        ModBit(2 * v, WORD_BITS, i - (s - 1));
      }
    }
  }

  lemma {:induction false} NotBitBelow(v: nat, n: nat, i: nat)
    requires v < Pow2(n) && i < n
    ensures Bit(Pow2(n) - 1 - v, i) == !Bit(v, i)
    decreases i
  {
    assert (Pow2(n) - 1 - v) / 2 == Pow2(n - 1) - 1 - v / 2;
    if i > 0 { NotBitBelow(v / 2, n - 1, i - 1); }
  }

  lemma NotBit(v: word, i: nat)
    requires i < WORD_BITS
    ensures Bit(Not(v), i) == !Bit(v, i)
  {
    WordIsPow2();
    NotBitBelow(v, WORD_BITS, i);
  }

  /** Two numbers below 2^n with the same low n bits are equal. */
  lemma {:induction false} SameBits(a: nat, b: nat, n: nat)
    requires a < Pow2(n) && b < Pow2(n)
    requires forall i: nat | i < n :: Bit(a, i) == Bit(b, i)
    ensures a == b
    decreases n
  {
    if n > 0 {
      assert Bit(a, 0) == Bit(b, 0);
      forall i: nat | i < n - 1 ensures Bit(a / 2, i) == Bit(b / 2, i) {
        assert Bit(a, i + 1) == Bit(b, i + 1);
      }
      SameBits(a / 2, b / 2, n - 1);
    }
  }

  // ---------- Bit reversal ----------

  lemma {:induction false} ReversedBound(v: nat, n: nat)
    ensures Reversed(v, n) < Pow2(n)
    decreases n
  {
    if n > 0 { ReversedBound(v / 2, n - 1); }
  }

  lemma {:induction false} TopBit(x: nat, m: nat, top: bool, i: nat)
    requires x < Pow2(m) && i <= m
    ensures Bit((if top then Pow2(m) else 0) + x, i) == (if i == m then top else Bit(x, i))
    decreases m
  {
    if m > 0 {
      var half := if top then Pow2(m - 1) else 0;
      assert (if top then Pow2(m) else 0) + x == 2 * half + x;
      assert (2 * half + x) / 2 == half + x / 2 && (2 * half + x) % 2 == x % 2;
      if i > 0 { TopBit(x / 2, m - 1, top, i - 1); }
    }
  }

  lemma {:induction false} ReversedBit(v: nat, n: nat, i: nat)
    requires i < n
    ensures Bit(Reversed(v, n), i) == Bit(v, n - 1 - i)
    decreases n
  {
    ReversedBound(v / 2, n - 1);
    TopBit(Reversed(v / 2, n - 1), n - 1, v % 2 == 1, i);
    if i < n - 1 { ReversedBit(v / 2, n - 1, i); }
  }

  /** Reversing twice gives the number back. */
  lemma ReversedTwice(v: nat, n: nat)
    requires v < Pow2(n)
    ensures Reversed(Reversed(v, n), n) == v
  {
    ReversedBound(v, n);
    ReversedBound(Reversed(v, n), n);
    forall i: nat | i < n ensures Bit(Reversed(Reversed(v, n), n), i) == Bit(v, i) {
      ReversedBit(Reversed(v, n), n, i);
      ReversedBit(v, n, n - 1 - i);
    }
    SameBits(Reversed(Reversed(v, n), n), v, n);
  }

  lemma {:induction false} OrBound(a: nat, b: nat, n: nat)
    requires a < Pow2(n) && b < Pow2(n)
    ensures Or(a, b) < Pow2(n)
    decreases n
  {
    if n > 0 && !(a == 0 && b == 0) { OrBound(a / 2, b / 2, n - 1); }
  }

  lemma {:induction false} XorBound(a: nat, b: nat, n: nat)
    requires a < Pow2(n) && b < Pow2(n)
    ensures Xor(a, b) < Pow2(n)
    decreases n
  {
    if n > 0 && !(a == 0 && b == 0) { XorBound(a / 2, b / 2, n - 1); }
  }

  /** Where bit `i` comes from once blocks of `w` bits are in reverse order. */
  function Mirror(i: nat, w: nat): int
    requires w > 0
  {
    WORD_BITS - w - i + 2 * (i % w)
  }

  ghost predicate BlockMask(mask: word, w: nat)
    requires w in {1, 2, 4, 8, 16, 32, 64}
  {
    forall i: nat | i < WORD_BITS :: Bit(mask, i) == (i / w % 2 == 0)
  }

  ghost predicate BlocksReversed(r: word, v: word, w: nat)
    requires w in {1, 2, 4, 8, 16, 32, 64}
  {
    forall i: nat | i < WORD_BITS :: Mirror(i, w) >= 0 && Bit(r, i) == Bit(v, Mirror(i, w))
  }

  /** Position `i` is place `r` of block `2 * q + b`, so it lies in double block `q`. */
  lemma DoubleBlock(i: nat, s: nat, q: nat, b: nat, r: nat)
    requires s > 0 && b < 2 && r < s && i == (2 * q + b) * s + r
    ensures i / s == 2 * q + b && i % s == r
    ensures i / (2 * s) == q && i % (2 * s) == b * s + r
  {
    DivModUnique(i, s, 2 * q + b, r);
    assert b * s + r < 2 * s by { if b == 1 { } }
    assert (2 * q + b) * s == q * (2 * s) + b * s;
    DivModUnique(i, 2 * s, q, b * s + r);
  }

  lemma EvenBlock(i: nat, s: nat)
    requires s > 0 && i / s % 2 == 0
    ensures (i + s) % (2 * s) == s + i % s
    ensures i / (2 * s) == i / s / 2
    ensures i >= s ==> (i - s) / (2 * s) == i / s / 2 - 1
  {
    var q, r := i / s / 2, i % s;
    assert i == (2 * q + 0) * s + r;
    DoubleBlock(i, s, q, 0, r);
    assert i + s == (2 * q + 1) * s + r;
    DoubleBlock(i + s, s, q, 1, r);
    if i >= s {
      assert q > 0;
      assert i - s == (2 * (q - 1) + 1) * s + r;
      DoubleBlock(i - s, s, q - 1, 1, r);
    }
  }

  lemma OddBlock(i: nat, s: nat)
    requires s > 0 && i / s % 2 == 1
    ensures i >= s && (i - s) % (2 * s) == i % s
    ensures i / (2 * s) == i / s / 2
    ensures (i - s) / (2 * s) == i / s / 2
  {
    var q, r := i / s / 2, i % s;
    assert i == (2 * q + 1) * s + r;
    DoubleBlock(i, s, q, 1, r);
    assert i - s == (2 * q + 0) * s + r;
    DoubleBlock(i - s, s, q, 0, r);
  }

  lemma MaskStep(i: nat, s: nat)
    requires s > 0
    ensures (i / s % 2 == 0) == ((i / (2 * s) % 2 == 0) != (i >= s && (i - s) / (2 * s) % 2 == 0))
  {
    if i / s % 2 == 0 { EvenBlock(i, s); if i < s { EvenStart(i, s); } } else { OddBlock(i, s); }
  }

  lemma EvenStart(i: nat, s: nat)
    requires s > 0 && i < s
    ensures i / s == 0
  {
  }

  lemma EvenBlockFits(i: nat, s: nat)
    requires i < WORD_BITS && s in {1, 2, 4, 8, 16, 32} && i / s % 2 == 0
    ensures i + s < WORD_BITS
  {
    if s == 1 { } else if s == 2 { } else if s == 4 { } else if s == 8 { } else if s == 16 { } else { }
  }

  lemma MirrorStep(i: nat, s: nat)
    requires i < WORD_BITS && s in {1, 2, 4, 8, 16, 32}
    ensures i / s % 2 == 0 ==> i + s < WORD_BITS && Mirror(i + s, 2 * s) == Mirror(i, s)
    ensures i / s % 2 != 0 ==> i >= s && Mirror(i - s, 2 * s) == Mirror(i, s)
  {
    if i / s % 2 == 0 {
      EvenBlock(i, s);
      EvenBlockFits(i, s);
    } else {
      OddBlock(i, s);
    }
  }

  lemma NextMask(mask: word, s: nat, mask': word)
    requires s in {1, 2, 4, 8, 16, 32} && BlockMask(mask, 2 * s)
    requires mask' == Xor(mask, Shl(mask, s))
    ensures BlockMask(mask', s)
  {
    forall i: nat | i < WORD_BITS ensures Bit(mask', i) == (i / s % 2 == 0) {
      XorBit(mask, Shl(mask, s), i);
      ShlBit(mask, s, i);
      MaskStep(i, s);
    }
  }

  lemma NextBlocks(r: word, v: word, s: nat, mask: word, r': word)
    requires s in {1, 2, 4, 8, 16, 32} && BlocksReversed(r, v, 2 * s) && BlockMask(mask, s)
    requires r' == Or(And(Shr(r, s), mask), And(Shl(r, s), Not(mask)))
    ensures BlocksReversed(r', v, s)
  {
    forall i: nat | i < WORD_BITS ensures Mirror(i, s) >= 0 && Bit(r', i) == Bit(v, Mirror(i, s)) {
      NextBlockBit(r, s, mask, i);
      MirrorStep(i, s);
    }
  }

  lemma NextBlockBit(r: word, s: nat, mask: word, i: nat)
    requires i < WORD_BITS
    ensures Bit(Or(And(Shr(r, s), mask), And(Shl(r, s), Not(mask))), i)
         == if Bit(mask, i) then Bit(r, i + s) else i >= s && Bit(r, i - s)
  {
    OrBit(And(Shr(r, s), mask), And(Shl(r, s), Not(mask)), i);
    AndBit(Shr(r, s), mask, i);
    AndBit(Shl(r, s), Not(mask), i);
    NotBit(mask, i);
    ShrBit(r, s, i);
    ShlBit(r, s, i);
  }

  /** `rev`: six rounds that swap neighbouring blocks of 32, 16, 8, 4, 2 and 1 bits. */
  method Rev(v: word) returns (r: word)
    ensures r == Reversed(v, WORD_BITS)
  {
    WordIsPow2();
    var s, mask: word := WORD_BITS, Not(0);
    r := v;
    forall i: nat | i < WORD_BITS ensures Bit(mask, i) { NotBit(0, i); ZeroBit(i); }
    ghost var w := WORD_BITS;
    s := s / 2;
    while s > 0
      invariant w in {1, 2, 4, 8, 16, 32, 64} && s == w / 2
      invariant BlockMask(mask, w)
      invariant BlocksReversed(r, v, w)
    {
      mask := NextMaskWord(mask, s);
      r := NextBlocksWord(r, v, s, mask);
      w := s;
      s := s / 2;
    }
    LastBlocks(r, v);
  }

  /** Halve the blocks of the mask: flip it where its copy shifted by `s` has ones. */
  method NextMaskWord(mask: word, s: nat) returns (mask': word)
    requires s in {1, 2, 4, 8, 16, 32} && BlockMask(mask, 2 * s)
    ensures BlockMask(mask', s)
  {
    WordIsPow2();
    XorBound(mask, Shl(mask, s), WORD_BITS);
    mask' := Xor(mask, Shl(mask, s));
    NextMask(mask, s, mask');
  }

  /** Swap neighbouring blocks of `s` bits. */
  method NextBlocksWord(r: word, ghost v: word, s: nat, mask: word) returns (r': word)
    requires s in {1, 2, 4, 8, 16, 32} && BlocksReversed(r, v, 2 * s) && BlockMask(mask, s)
    ensures BlocksReversed(r', v, s)
  {
    WordIsPow2();
    OrBound(And(Shr(r, s), mask), And(Shl(r, s), Not(mask)), WORD_BITS);
    r' := Or(And(Shr(r, s), mask), And(Shl(r, s), Not(mask)));
    NextBlocks(r, v, s, mask, r');
  }

  lemma LastBlocks(r: word, v: word)
    requires BlocksReversed(r, v, 1)
    ensures r == Reversed(v, WORD_BITS)
  {
    WordIsPow2();
    forall i: nat | i < WORD_BITS ensures Bit(r, i) == Bit(Reversed(v, WORD_BITS), i) {
      ReversedBit(v, WORD_BITS, i);
      assert Mirror(i, 1) == WORD_BITS - 1 - i;
    }
    ReversedBound(v, WORD_BITS);
    SameBits(r, Reversed(v, WORD_BITS), WORD_BITS);
  }
}
