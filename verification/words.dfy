/** 32-bit words as integers, with the wrap-around, shift and bitwise operations
    the simulator performs on `uint32_t`. */
module Words {
  datatype Option<+T> = None | Some(value: T)

  const WORD_LIMIT: int := 0x1_0000_0000
  const SIGN_BIT: int := 0x8000_0000

  type Byte = x: int | 0 <= x < 256
  type Half = x: int | 0 <= x < 0x1_0000
  type Word = x: int | 0 <= x < 0x1_0000_0000
  type RegIndex = x: int | 0 <= x < 32

  /** Unsigned addition and subtraction modulo 2^32. */
  function Add(a: Word, b: Word): Word {
    if a + b < WORD_LIMIT then a + b else a + b - WORD_LIMIT
  }

  function Sub(a: Word, b: Word): Word {
    if b <= a then a - b else a - b + WORD_LIMIT
  }

  /** The two's-complement reading of a word (`static_cast<int32_t>`), and back. */
  function Signed(w: Word): (v: int)
    ensures -SIGN_BIT <= v < SIGN_BIT
  {
    if w < SIGN_BIT then w else w - WORD_LIMIT
  }

  function Unsigned(v: int): Word
    requires -SIGN_BIT <= v < SIGN_BIT
  {
    if 0 <= v then v else v + WORD_LIMIT
  }

  function Pow2(n: nat): (p: nat)
    ensures 0 < p
  {
    if n == 0 then 1 else 2 * Pow2(n - 1)
  }

  /** The bit of weight 2^i. */
  predicate Bit(w: nat, i: nat) {
    (w / Pow2(i)) % 2 == 1
  }

  datatype BitFn = AndFn | OrFn | XorFn | NorFn

  predicate ApplyBit(f: BitFn, x: bool, y: bool) {
    match f
    case AndFn => x && y
    case OrFn => x || y
    case XorFn => x != y
    case NorFn => !(x || y)
  }

  /** `f` applied to the low `n` bits of `a` and `b`, position by position. */
  function Bitwise(f: BitFn, a: nat, b: nat, n: nat): (r: nat)
    ensures r < Pow2(n)
  {
    if n == 0 then 0
    else (if ApplyBit(f, a % 2 == 1, b % 2 == 1) then 1 else 0) + 2 * Bitwise(f, a / 2, b / 2, n - 1)
  }

  function BitOp(f: BitFn, a: Word, b: Word): Word {
    Pow2Of32();
    Bitwise(f, a, b, 32)
  }

  lemma Pow2Of32()
    ensures Pow2(32) == WORD_LIMIT
    ensures Pow2(31) == SIGN_BIT
  {
    Pow2Add(16, 16);
    assert Pow2(8) == 256;
    Pow2Add(8, 8);
  }

  lemma {:induction false} Pow2Add(m: nat, n: nat)
    ensures Pow2(m + n) == Pow2(m) * Pow2(n)
  {
    if m != 0 {
      Pow2Add(m - 1, n);
      calc {
        Pow2(m + n);
        2 * Pow2(m - 1 + n);
        2 * (Pow2(m - 1) * Pow2(n));
        Pow2(m) * Pow2(n);
      }
    }
  }

  /** A bitwise operation acts on every bit position independently. */
  lemma {:induction false} BitwiseBit(f: BitFn, a: nat, b: nat, n: nat, i: nat)
    requires i < n
    ensures Bit(Bitwise(f, a, b, n), i) == ApplyBit(f, Bit(a, i), Bit(b, i))
  {
    hide Bitwise, ApplyBit;
    BitwiseHalf(f, a, b, n);
    if i == 0 {
      assert forall w: nat :: Bit(w, 0) == (w % 2 == 1);
    } else {
      hide Bit;
      BitwiseBit(f, a / 2, b / 2, n - 1, i - 1);
      BitHalf(a, i);
      BitHalf(b, i);
      BitHalf(Bitwise(f, a, b, n), i);
    }
  }

  lemma BitwiseHalf(f: BitFn, a: nat, b: nat, n: nat)
    requires n > 0
    ensures Bitwise(f, a, b, n) / 2 == Bitwise(f, a / 2, b / 2, n - 1)
    ensures (Bitwise(f, a, b, n) % 2 == 1) == ApplyBit(f, a % 2 == 1, b % 2 == 1)
  {
    hide ApplyBit, Pow2;
  }

  lemma BitHalf(w: nat, i: nat)
    requires 0 < i
    ensures Bit(w, i) == Bit(w / 2, i - 1)
  {
    DivTwice(w, 2, Pow2(i - 1));
  }

  lemma ProductSplits(c: nat, d: nat, q: nat, r: nat)
    ensures c * (d * q + r) == (c * d) * q + c * r
  {
  }

  lemma ProductBound(c: nat, d: nat, q: nat, r: nat)
    requires q < d && r < c
    ensures c * q + r < c * d
  {
    assert c * q <= c * (d - 1);
  }

  lemma Recompose(w: nat, c: nat, d: nat, q: nat, r: nat, q2: nat, r2: nat)
    requires w == c * q + r && q == d * q2 + r2 && r < c && r2 < d
    ensures w == (c * d) * q2 + (c * r2 + r) && c * r2 + r < c * d
  {
    ProductSplits(c, d, q2, r2);
    ProductBound(c, d, r2, r);
  }

  lemma DivTwice(w: nat, c: nat, d: nat)
    requires 0 < c && 0 < d
    ensures 0 < c * d && w / (c * d) == (w / c) / d
  {
    var q, r := w / c, w % c;
    var q2, r2 := q / d, q % d;
    Recompose(w, c, d, q, r, q2, r2);
    var cd, low := c * d, c * r2 + r;
    DivUnique(w, cd, q2, low);
  }

  lemma DivUnique(w: nat, m: nat, q: nat, r: nat)
    requires w == m * q + r && r < m
    ensures w / m == q && w % m == r
  {
    var q', r' := w / m, w % m;
    assert q' < q ==> m * q >= m * (q' + 1);
    assert q < q' ==> m * q' >= m * (q + 1);
  }

  /** Bit 31 is the sign of the two's-complement reading. */
  lemma TopBit(w: Word)
    ensures Bit(w, 31) <==> SIGN_BIT <= w
    ensures Bit(w, 31) <==> Signed(w) < 0
  {
    Pow2Of32();
  }

  lemma ComplementBit(w: Word, i: RegIndex)
    ensures Bit(WORD_LIMIT - 1 - w, i) == !Bit(w, i)
  {
    Pow2Of32();
    ComplementLow(w, 32, i);
  }

  lemma HalfOfComplement(p: nat, w: nat)
    requires w < 2 * p
    ensures w / 2 < p
    ensures (2 * p - 1 - w) / 2 == p - 1 - w / 2
    ensures (2 * p - 1 - w) % 2 == 1 - w % 2
  {
  }

  lemma {:induction false} ComplementLow(w: nat, n: nat, i: nat)
    requires i < n && w < Pow2(n)
    ensures Bit(Pow2(n) - 1 - w, i) == !Bit(w, i)
  {
    var c := Pow2(n) - 1 - w;
    HalfOfComplement(Pow2(n - 1), w);
    if i > 0 {
      hide Bit, Pow2;
      ComplementLow(w / 2, n - 1, i - 1);
      BitHalf(w, i);
      BitHalf(c, i);
    }
  }

  /** The low bits survive reduction modulo a power of two. */
  lemma {:induction false} LowBits(w: nat, n: nat, i: nat)
    requires i < n
    ensures Bit(w % Pow2(n), i) == Bit(w, i)
  {
    HalfOfRemainder(w, Pow2(n), Pow2(n - 1));
    if i > 0 {
      BitHalf(w, i);
      BitHalf(w % Pow2(n), i);
      LowBits(w / 2, n - 1, i - 1);
    }
  }

  lemma HalfOfRemainder(w: nat, m: nat, p: nat)
    requires 0 < p && m == 2 * p
    ensures (w % m) / 2 == (w / 2) % p
    ensures (w % m) % 2 == w % 2
  {
    var q, r := DivisionParts(w, m);
    HalvedParts(w, m, p, q, r);
  }

  lemma DivisionParts(w: nat, m: nat) returns (q: nat, r: nat)
    requires 0 < m
    ensures w == m * q + r && r < m && r == w % m
  {
    q, r := w / m, w % m;
  }

  lemma HalvedParts(w: nat, m: nat, p: nat, q: nat, r: nat)
    requires m == 2 * p && w == m * q + r && r < m
    ensures r / 2 == (w / 2) % p && r % 2 == w % 2
  {
    HalveDivision(w, m, p, q, r);
    DivUnique(w / 2, p, q, r / 2);
  }

  lemma HalveDivision(w: nat, m: nat, p: nat, q: nat, r: nat)
    requires m == 2 * p && w == m * q + r
    ensures w / 2 == p * q + r / 2 && w % 2 == r % 2
  {
    var pq := p * q;
    assert w == 2 * pq + r;
    EvenPlus(pq, r);
  }

  lemma EvenPlus(m: nat, r: nat)
    ensures (2 * m + r) / 2 == m + r / 2 && (2 * m + r) % 2 == r % 2
  {
  }

  /** Multiplying by 2^k moves every bit up k places and fills with zeros. */
  lemma {:induction false} ShiftedUpBit(w: nat, k: nat, i: nat)
    ensures Bit(w * Pow2(k), i) == (k <= i && Bit(w, i - k))
  {
    if k > 0 {
      var half := w * Pow2(k - 1);
      assert w * Pow2(k) == 2 * half;
      EvenPlus(half, 0);
      if i > 0 {
        ShiftedUpBit(w, k - 1, i - 1);
        BitHalf(2 * half, i);
      }
    }
  }

  /** A number below 2^n has no bit at n or above. */
  lemma NoHighBit(w: nat, n: nat, i: nat)
    requires w < Pow2(n) && n <= i
    ensures !Bit(w, i)
  {
    Pow2Add(n, i - n);
    Pow2Grows(n, i - n);
    DivUnique(w, Pow2(i), 0, w);
  }

  lemma Pow2Grows(n: nat, k: nat)
    ensures Pow2(n) <= Pow2(n) * Pow2(k)
  {
    assert Pow2(n) * Pow2(k) == Pow2(n) + Pow2(n) * (Pow2(k) - 1);
  }
}
