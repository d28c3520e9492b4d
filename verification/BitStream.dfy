// The bit stream read by source/tools/gzip/gzip.c: bytes, least significant bit first.
module BitStream {
  import opened Words

  type byte = b: nat | b < 256
  type bit = b: nat | b < 2

  /** The input buffer, and whatever bytes lie after it in memory. */
  datatype Source = Source(data: seq<byte>, beyond: nat -> byte)

  function ByteAt(s: Source, i: nat): byte {
    if i < |s.data| then s.data[i] else s.beyond(i)
  }

  function BitAt(s: Source, pos: nat): bit {
    if Bit(ByteAt(s, pos / 8), pos % 8) then 1 else 0
  }

  /** The number of bits in the input buffer. */
  function BitLength(s: Source): nat {
    8 * |s.data|
  }

  /** The bits of s from pos on start with the given bits. */
  ghost predicate At(s: Source, pos: nat, bits: seq<bit>) {
    forall k :: 0 <= k < |bits| ==> BitAt(s, pos + k) == bits[k]
  }

  /** A number of n bits, least significant bit first. */
  function Lsb(v: nat, n: nat): (bits: seq<bit>)
    ensures |bits| == n
  {
    if n == 0 then [] else [v % 2] + Lsb(v / 2, n - 1)
  }

  /** A number of n bits, most significant bit first. */
  function Msb(v: nat, n: nat): (bits: seq<bit>)
    ensures |bits| == n
  {
    if n == 0 then [] else Msb(v / 2, n - 1) + [v % 2]
  }

  /** The n bits from pos on, read as a number with its least significant bit first. */
  function Field(s: Source, pos: nat, n: nat): nat
    decreases n
  {
    if n == 0 then 0 else BitAt(s, pos) + 2 * Field(s, pos + 1, n - 1)
  }

  /** The n bits from pos on, read as a number with its most significant bit first. */
  function Window(s: Source, pos: nat, n: nat): nat {
    if n == 0 then 0 else 2 * Window(s, pos, n - 1) + BitAt(s, pos + n - 1)
  }

  lemma AtConcat(s: Source, pos: nat, a: seq<bit>, b: seq<bit>)
    ensures At(s, pos, a + b) <==> At(s, pos, a) && At(s, pos + |a|, b)
  {
    if At(s, pos, a + b) {
      forall k | 0 <= k < |a| ensures BitAt(s, pos + k) == a[k] {
        assert (a + b)[k] == a[k];
      }
      forall k | 0 <= k < |b| ensures BitAt(s, pos + |a| + k) == b[k] {
        assert (a + b)[|a| + k] == b[k];
      }
    }
  }

  lemma {:induction false} FieldBound(s: Source, pos: nat, n: nat)
    ensures Field(s, pos, n) < Pow2(n)
    decreases n
  {
    if n != 0 {
      FieldBound(s, pos + 1, n - 1);
    }
  }

  /** A bit at place i of a number. */
  function ShiftLeft(b: nat, i: nat): nat {
    b * Pow2(i)
  }

  lemma ShiftOnce(b: nat, i: nat)
    ensures ShiftLeft(b, 0) == b && ShiftLeft(b, i + 1) == 2 * ShiftLeft(b, i)
  {
    assert Pow2(i + 1) == 2 * Pow2(i);
    assert b * (2 * Pow2(i)) == 2 * (b * Pow2(i));
  }

  lemma {:induction false} FieldNext(s: Source, pos: nat, n: nat)
    ensures Field(s, pos, n + 1) == Field(s, pos, n) + ShiftLeft(BitAt(s, pos + n), n)
    decreases n
  {
    hide BitAt, ShiftLeft;
    if n == 0 {
      ShiftOnce(BitAt(s, pos), 0);
      assert Field(s, pos + 1, 0) == 0;
    } else {
      FieldNext(s, pos + 1, n - 1);
      ShiftOnce(BitAt(s, pos + n), n - 1);
    }
  }

  lemma {:induction false} WindowBound(s: Source, pos: nat, n: nat)
    ensures Window(s, pos, n) < Pow2(n)
  {
    if n != 0 {
      WindowBound(s, pos, n - 1);
    }
  }

  lemma WindowEmpty(s: Source, pos: nat)
    ensures Window(s, pos, 0) == 0
  {
  }

  /** A window is read bit by bit. */
  lemma WindowNext(s: Source, pos: nat, n: nat)
    ensures Window(s, pos, n + 1) == 2 * Window(s, pos, n) + Field(s, pos + n, 1)
  {
    hide BitAt;
    assert Field(s, pos + n + 1, 0) == 0;
  }

  /** The first m bits of a window of m + n bits are its quotient by 2^n. */
  lemma {:induction false} WindowPrefix(s: Source, pos: nat, m: nat, n: nat)
    ensures Window(s, pos, m + n) / Pow2(n) == Window(s, pos, m)
  {
    WindowSplit(s, pos, m, n);
    WindowBound(s, pos + m, n);
    DivOf(Window(s, pos, m), Pow2(n), Window(s, pos + m, n));
  }

  lemma {:induction false} WindowSplit(s: Source, pos: nat, m: nat, n: nat)
    ensures Window(s, pos, m + n) == Window(s, pos, m) * Pow2(n) + Window(s, pos + m, n)
  {
    if n != 0 {
      WindowSplit(s, pos, m, n - 1);
      Double(Window(s, pos, m), Pow2(n - 1), Window(s, pos + m, n - 1));
    }
  }

  lemma Double(a: nat, b: nat, c: nat)
    ensures 2 * (a * b + c) == a * (2 * b) + 2 * c
  {
  }

  lemma SmallMod(k: nat, d: nat)
    requires k < d
    ensures k % d == k
  {
    DivOf(0, d, k);
  }

  lemma ModMinus(k: nat, d: nat)
    requires 0 < d <= k
    ensures (k - d) % d == k % d
  {
    var q, r := k / d, k % d;
    DivMod(k, d);
    MinusOnce(q, d);
    if q <= 0 {
      MulMonotone(q, 0, d);
    }
    DivOf(q - 1, d, r);
    DivMod(k - d, d);
  }

  lemma DivMod(x: nat, d: nat)
    requires d > 0
    ensures x == x / d * d + x % d && x % d < d
  {
  }

  lemma MinusOnce(q: int, d: nat)
    ensures (q - 1) * d == q * d - d
  {
  }

  /** The input holds v as a field of n bits exactly when reading the field gives v. */
  lemma {:induction false} AtLsb(s: Source, pos: nat, v: nat, n: nat)
    requires v < Pow2(n)
    ensures At(s, pos, Lsb(v, n)) <==> Field(s, pos, n) == v
    decreases n
  {
    if n != 0 {
      AtLsb(s, pos + 1, v / 2, n - 1);
      AtConcat(s, pos, [v % 2], Lsb(v / 2, n - 1));
      assert At(s, pos, [v % 2]) <==> BitAt(s, pos) == v % 2 by {
        assert [v % 2][0] == v % 2;
        assert BitAt(s, pos + 0) == BitAt(s, pos);
      }
    }
  }

  /** The input holds v, most significant bit first, exactly when the window of n bits is v. */
  lemma {:induction false} AtMsb(s: Source, pos: nat, v: nat, n: nat)
    requires v < Pow2(n)
    ensures At(s, pos, Msb(v, n)) <==> Window(s, pos, n) == v
  {
    if n != 0 {
      AtMsb(s, pos, v / 2, n - 1);
      AtConcat(s, pos, Msb(v / 2, n - 1), [v % 2]);
      assert At(s, pos + n - 1, [v % 2]) <==> BitAt(s, pos + n - 1) == v % 2 by {
        assert [v % 2][0] == v % 2;
        assert BitAt(s, pos + n - 1 + 0) == BitAt(s, pos + n - 1);
      }
    }
  }

  lemma {:induction false} FieldBit(s: Source, pos: nat, n: nat, k: nat)
    requires k < n
    ensures Bit(Field(s, pos, n), k) == (BitAt(s, pos + k) == 1)
    decreases n
  {
    if k != 0 {
      FieldBit(s, pos + 1, n - 1, k - 1);
    }
  }

  lemma BitOfByte(s: Source, i: nat, k: nat)
    requires k < 8
    ensures BitAt(s, 8 * i + k) == if Bit(ByteAt(s, i), k) then 1 else 0
  {
    assert (8 * i + k) / 8 == i && (8 * i + k) % 8 == k;
  }

  /** Eight bits from a byte boundary on are a byte of the source. */
  lemma ByteField(s: Source, i: nat)
    ensures Field(s, 8 * i, 8) == ByteAt(s, i)
  {
    hide Field, ByteAt, BitAt, Bit;
    var v, b: nat := Field(s, 8 * i, 8), ByteAt(s, i);
    FieldBound(s, 8 * i, 8);
    assert Pow2(8) == 256 by {
      assert Pow2(4) == 16;
    }
    forall k: nat | k < 8 ensures Bit(v, k) == Bit(b, k) {
      FieldBit(s, 8 * i, 8, k);
      BitOfByte(s, i, k);
    }
    SameBits(v, b, 8);
  }

  lemma {:induction false} FieldSplit(s: Source, pos: nat, m: nat, n: nat)
    ensures Field(s, pos, m + n) == Field(s, pos, m) + Field(s, pos + m, n) * Pow2(m)
    decreases m
  {
    hide Field, BitAt;
    if m == 0 {
      FieldEmpty(s, pos);
    } else {
      var f, g, p := Field(s, pos + 1, m - 1), Field(s, pos + m, n), Pow2(m - 1);
      FieldSplit(s, pos + 1, m - 1, n);
      assert pos + 1 + (m - 1) == pos + m && m - 1 + n == m + n - 1;
      FieldFirst(s, pos, m + n);
      FieldFirst(s, pos, m);
      Double(g, p, f);
    }
  }

  lemma FieldEmpty(s: Source, pos: nat)
    ensures Field(s, pos, 0) == 0
  {
  }

  lemma FieldFirst(s: Source, pos: nat, n: nat)
    requires n > 0
    ensures Field(s, pos, n) == BitAt(s, pos) + 2 * Field(s, pos + 1, n - 1)
  {
  }
}
