// Machine words as natural numbers, seen bit by bit.
//
// The C code tests, sets and clears single bits of 32-bit words: `w & (1 << j)`,
// `w | (1 << j)` and `w & ~(1 << j)`.  The functions below are these operations,
// defined by recursion over the bits.
module Words {

  function Pow2(n: nat): (p: nat)
    ensures p > 0
  {
    if n == 0 then 1 else 2 * Pow2(n - 1)
  }

  const WORD_BITS: nat := 32
  const WORD_MAX: nat := 0xFFFF_FFFF

  lemma WordMax()
    ensures Pow2(WORD_BITS) == WORD_MAX + 1
  {
    assert Pow2(4) == 16;
    Pow2Add(4, 4);
    Pow2Add(8, 8);
    Pow2Add(16, 16);
  }

  lemma {:induction false} Pow2Add(a: nat, b: nat)
    ensures Pow2(a + b) == Pow2(a) * Pow2(b)
  {
    if a != 0 {
      Pow2Add(a - 1, b);
    }
  }

  lemma {:induction false} Pow2Monotone(a: nat, b: nat)
    requires a <= b
    ensures Pow2(a) <= Pow2(b)
  {
    if a < b {
      Pow2Monotone(a, b - 1);
    }
  }

  /** Bit j of w: `w & (1 << j)` is not zero. */
  predicate Bit(w: nat, j: nat) {
    if j == 0 then w % 2 == 1 else Bit(w / 2, j - 1)
  }

  /** `w | (1 << j)` */
  function SetBit(w: nat, j: nat): nat {
    if j == 0 then w / 2 * 2 + 1 else 2 * SetBit(w / 2, j - 1) + w % 2
  }

  /** `w & ~(1 << j)` */
  function ClearBit(w: nat, j: nat): nat {
    if j == 0 then w / 2 * 2 else 2 * ClearBit(w / 2, j - 1) + w % 2
  }

  lemma BitStep(w: nat, j: nat)
    ensures Bit(w, j) == if j == 0 then w % 2 == 1 else Bit(w / 2, j - 1)
  {
  }

  lemma ClearBitStep(w: nat, j: nat)
    ensures ClearBit(w, j) == if j == 0 then w / 2 * 2 else 2 * ClearBit(w / 2, j - 1) + w % 2
  {
  }

  lemma {:induction false} BitSetBit(w: nat, j: nat, i: nat)
    ensures Bit(SetBit(w, j), i) == (Bit(w, i) || i == j)
  {
    hide Bit, SetBit;
    SetBitStep(w, j);
    BitStep(w, i);
    BitStep(SetBit(w, j), i);
    if i != 0 && j != 0 {
      BitSetBit(w / 2, j - 1, i - 1);
    }
  }

  lemma {:induction false} BitClearBit(w: nat, j: nat, i: nat)
    ensures Bit(ClearBit(w, j), i) == (Bit(w, i) && i != j)
  {
    hide Bit, ClearBit;
    ClearBitStep(w, j);
    BitStep(w, i);
    BitStep(ClearBit(w, j), i);
    if i != 0 && j != 0 {
      BitClearBit(w / 2, j - 1, i - 1);
    }
  }

  lemma SetBitStep(w: nat, j: nat)
    ensures SetBit(w, j) == if j == 0 then w / 2 * 2 + 1 else 2 * SetBit(w / 2, j - 1) + w % 2
  {
  }

  lemma Pow2Step(n: nat)
    requires n > 0
    ensures Pow2(n) == 2 * Pow2(n - 1)
  {
  }

  /** Bit j is the one that counts 2^j. */
  lemma {:induction false} BitValue(w: nat, j: nat)
    ensures Bit(w, j) <==> w / Pow2(j) % 2 == 1
  {
    hide Bit, Pow2;
    BitStep(w, j);
    if j == 0 {
      assert Pow2(0) == 1 by {
        Pow2None();
      }
    } else {
      BitValue(w / 2, j - 1);
      Pow2Step(j);
      DivTwice(w, Pow2(j - 1));
    }
  }

  lemma Pow2None()
    ensures Pow2(0) == 1
  {
  }

  lemma DivTwice(w: nat, p: nat)
    requires p > 0
    ensures w / (2 * p) == w / 2 / p
  {
    var q := w / 2 / p;
    assert w / 2 == q * p + w / 2 % p;
    assert w == q * (2 * p) + (2 * (w / 2 % p) + w % 2);
    DivOf(q, 2 * p, 2 * (w / 2 % p) + w % 2);
  }

  lemma DivOf(q: nat, d: nat, r: nat)
    requires r < d
    ensures (q * d + r) / d == q
  {
    var x := q * d + r;
    var p := x / d;
    DivBounds(x, d);
    if p < q {
      MulMonotone(p + 1, q, d);
    } else if p > q {
      MulMonotone(q + 1, p, d);
    }
  }

  lemma DivBounds(x: nat, d: nat)
    requires d > 0
    ensures 0 <= x / d && x / d * d <= x < (x / d + 1) * d
  {
    assert x == x / d * d + x % d;
  }

  lemma MulMonotone(a: int, b: int, d: nat)
    requires a <= b
    ensures a * d <= b * d
  {
  }

  /** Setting a bit that is clear adds 2^j. */
  lemma {:induction false} SetBitValue(w: nat, j: nat)
    ensures SetBit(w, j) == if Bit(w, j) then w else w + Pow2(j)
  {
    hide Bit, SetBit, Pow2;
    BitStep(w, j);
    SetBitStep(w, j);
    if j == 0 {
      Pow2None();
    } else {
      SetBitValue(w / 2, j - 1);
      Pow2Step(j);
    }
  }

  lemma {:induction false} SetBitBound(w: nat, j: nat, n: nat)
    requires j < n && w < Pow2(n)
    ensures w <= SetBit(w, j) < Pow2(n)
  {
    hide SetBit, Pow2;
    Pow2Step(n);
    SetBitStep(w, j);
    if j != 0 {
      SetBitBound(w / 2, j - 1, n - 1);
    }
  }

  lemma {:induction false} ClearBitBound(w: nat, j: nat)
    ensures ClearBit(w, j) <= w
  {
    if j != 0 {
      ClearBitBound(w / 2, j - 1);
    }
  }

  ghost predicate AllSet(w: nat, n: nat) {
    forall j: nat :: j < n ==> Bit(w, j)
  }

  /** Only the word with all ones has every bit set. */
  lemma AllOnes(w: nat, n: nat)
    requires w < Pow2(n)
    ensures w == Pow2(n) - 1 <==> AllSet(w, n)
  {
    var max: nat := Pow2(n) - 1;
    forall j: nat | j < n ensures Bit(max, j) {
      BitOfAllOnes(n, j);
    }
    if AllSet(w, n) {
      SameBits(w, max, n);
    }
  }

  lemma {:induction false} BitOfAllOnes(n: nat, j: nat)
    requires j < n
    ensures Bit(Pow2(n) - 1, j)
  {
    if j != 0 {
      BitOfAllOnes(n - 1, j - 1);
      assert (Pow2(n) - 1) / 2 == Pow2(n - 1) - 1;
    }
  }

  /** Words below 2^n with the same bits are the same word. */
  lemma {:induction false} SameBits(v: nat, w: nat, n: nat)
    requires v < Pow2(n) && w < Pow2(n)
    requires forall j: nat :: j < n ==> Bit(v, j) == Bit(w, j)
    ensures v == w
  {
    if n != 0 {
      forall j: nat | j < n - 1 ensures Bit(v / 2, j) == Bit(w / 2, j) {
        assert Bit(v, j + 1) == Bit(w, j + 1);
      }
      SameBits(v / 2, w / 2, n - 1);
      assert Bit(v, 0) == Bit(w, 0);
    }
  }

  /** `w >> n` */
  function Shr(w: nat, n: nat): nat {
    if n == 0 then w else Shr(w / 2, n - 1)
  }

  /** Setting one of the lowest n bits leaves the bits above them alone. */
  lemma {:induction false} ShrSetBit(w: nat, j: nat, n: nat)
    requires j < n
    ensures Shr(SetBit(w, j), n) == Shr(w, n)
  {
    if j != 0 {
      ShrSetBit(w / 2, j - 1, n - 1);
    }
  }

  lemma {:induction false} ShrBounds(w: nat, n: nat)
    ensures Shr(w, n) * Pow2(n) <= w < (Shr(w, n) + 1) * Pow2(n)
  {
    if n != 0 {
      ShrBounds(w / 2, n - 1);
      Halves(Shr(w, n), Pow2(n - 1), w);
    }
  }

  lemma Halves(q: nat, p: nat, w: nat)
    requires q * p <= w / 2 < (q + 1) * p
    ensures q * (2 * p) <= w < (q + 1) * (2 * p)
  {
    assert q * (2 * p) == 2 * (q * p);
    assert (q + 1) * (2 * p) == 2 * ((q + 1) * p);
  }
}
