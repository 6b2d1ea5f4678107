/** 32-bit words as their four bytes, least significant first. The bitwise
    operators act byte by byte, and all shifts are by whole bytes. */
module WordBits {
  import opened Common
  import Division

  function Both(x: byte, y: byte): byte { x & y }
  function Either(x: byte, y: byte): byte { x | y }
  function Flip(x: byte): byte { !x }

  datatype Word = Word(b0: byte, b1: byte, b2: byte, b3: byte) {
    function At(j: nat): byte
      requires j < 4
    {
      if j == 0 then b0 else if j == 1 then b1 else if j == 2 then b2 else b3
    }

    function And(w: Word): Word { Word(Both(b0, w.b0), Both(b1, w.b1), Both(b2, w.b2), Both(b3, w.b3)) }
    function Or(w: Word): Word { Word(Either(b0, w.b0), Either(b1, w.b1), Either(b2, w.b2), Either(b3, w.b3)) }
    function Not(): Word { Word(Flip(b0), Flip(b1), Flip(b2), Flip(b3)) }

    /** `<< 8 * bytes`: what leaves the word at the top is lost. */
    function Up(bytes: nat): Word
      requires bytes < 4
    {
      if bytes == 0 then this else if bytes == 1 then Word(0, b0, b1, b2)
      else if bytes == 2 then Word(0, 0, b0, b1) else Word(0, 0, 0, b0)
    }

    /** `>> 8 * bytes`. */
    function Down(bytes: nat): Word
      requires bytes < 4
    {
      if bytes == 0 then this else if bytes == 1 then Word(b1, b2, b3, 0)
      else if bytes == 2 then Word(b2, b3, 0, 0) else Word(b3, 0, 0, 0)
    }
  }

  const ZERO := Word(0, 0, 0, 0)

  function OfByte(v: byte): Word { Word(v, 0, 0, 0) }

  /** A UINT16: two bytes, least significant first. */
  datatype Half = Half(low: byte, high: byte)

  function OfHalf(v: Half): Word { Word(v.low, v.high, 0, 0) }

  /** Read-modify-write of the bytes under `mask`, moved up by `j` bytes. */
  function Insert(w: Word, j: nat, mask: Word, v: Word): Word
    requires j < 4
  {
    w.And(mask.Up(j).Not()).Or(v.Up(j))
  }

  // ----- byte `k` of a result -----

  lemma AtOr(w: Word, v: Word, k: nat)
    requires k < 4
    ensures w.Or(v).At(k) == Either(w.At(k), v.At(k))
  {
  }

  lemma AtAnd(w: Word, v: Word, k: nat)
    requires k < 4
    ensures w.And(v).At(k) == Both(w.At(k), v.At(k))
  {
  }

  lemma AtNot(w: Word, k: nat)
    requires k < 4
    ensures w.Not().At(k) == Flip(w.At(k))
  {
  }

  lemma AtUp(w: Word, j: nat, k: nat)
    requires j < 4 && k < 4
    ensures w.Up(j).At(k) == if k < j then 0 else w.At(k - j)
  {
  }

  lemma Keep(x: byte)
    ensures Either(Both(x, Flip(0)), 0) == x
  {
  }

  lemma Replace(x: byte, v: byte)
    ensures Either(Both(x, Flip(0xFF)), v) == v
  {
  }

  lemma InsertAt(w: Word, j: nat, mask: Word, v: Word, k: nat)
    requires j < 4 && k < 4
    ensures Insert(w, j, mask, v).At(k)
         == Either(Both(w.At(k), Flip(if k < j then 0 else mask.At(k - j))), if k < j then 0 else v.At(k - j))
  {
    AtUp(mask, j, k);
    AtUp(v, j, k);
    AtNot(mask.Up(j), k);
    AtAnd(w, mask.Up(j).Not(), k);
    AtOr(w.And(mask.Up(j).Not()), v.Up(j), k);
  }

  lemma InsertByte(w: Word, j: nat, v: byte, k: nat)
    requires j < 4 && k < 4
    ensures Insert(w, j, OfByte(0xFF), OfByte(v)).At(k) == if k == j then v else w.At(k)
  {
    InsertAt(w, j, OfByte(0xFF), OfByte(v), k);
    Keep(w.At(k));
    Replace(w.At(k), v);
  }

  /** Two bytes inserted at the last byte of a word lose the second one. */
  lemma InsertHalf(w: Word, j: nat, v: Half, k: nat)
    requires j < 4 && k < 4
    ensures Insert(w, j, OfHalf(Half(0xFF, 0xFF)), OfHalf(v)).At(k)
         == if k == j then v.low else if k == j + 1 then v.high else w.At(k)
  {
    InsertAt(w, j, OfHalf(Half(0xFF, 0xFF)), OfHalf(v), k);
    Keep(w.At(k));
    Replace(w.At(k), v.low);
    Replace(w.At(k), v.high);
  }

  // ----- single bits -----

  /** 1 << t, within a byte. */
  function ByteBit(t: nat): byte
    requires t < 8
  {
    if t == 0 then 0x01 else if t == 1 then 0x02 else if t == 2 then 0x04 else if t == 3 then 0x08
    else if t == 4 then 0x10 else if t == 5 then 0x20 else if t == 6 then 0x40 else 0x80
  }

  /** 1 << k. */
  function OneShifted(k: nat): Word
    requires k < 32
  {
    OfByte(ByteBit(k % 8)).Up(k / 8)
  }

  predicate Bit(b: byte, t: nat)
    requires t < 8
  {
    Both(b, ByteBit(t)) != 0
  }

  lemma SetBit(b: byte, t: nat, s: nat)
    requires t < 8 && s < 8
    ensures Bit(Either(b, ByteBit(t)), s) == (s == t || Bit(b, s))
  {
  }

  lemma ClearBit(b: byte, t: nat, s: nat)
    requires t < 8 && s < 8
    ensures Bit(Both(b, Flip(ByteBit(t))), s) == (s != t && Bit(b, s))
  {
  }

  lemma OneShiftedAt(k: nat, j: nat)
    requires k < 32 && j < 4
    ensures OneShifted(k).At(j) == if j == k / 8 then ByteBit(k % 8) else 0
  {
  }

  lemma Nothing(x: byte)
    ensures Either(x, 0) == x && Both(x, Flip(0)) == x && Both(x, 0) == 0
  {
  }

  /** Setting, clearing and testing bit `k` of a word is about bit k % 8 of its
      byte k / 8. */
  lemma SetInWord(w: Word, k: nat, j: nat)
    requires k < 32 && j < 4
    ensures w.Or(OneShifted(k)).At(j) == if j == k / 8 then Either(w.At(j), ByteBit(k % 8)) else w.At(j)
  {
    OneShiftedAt(k, j);
    AtOr(w, OneShifted(k), j);
    Nothing(w.At(j));
  }

  lemma ClearInWord(w: Word, k: nat, j: nat)
    requires k < 32 && j < 4
    ensures w.And(OneShifted(k).Not()).At(j) == if j == k / 8 then Both(w.At(j), Flip(ByteBit(k % 8))) else w.At(j)
  {
    OneShiftedAt(k, j);
    AtNot(OneShifted(k), j);
    AtAnd(w, OneShifted(k).Not(), j);
    Nothing(w.At(j));
  }

  lemma IsZero(w: Word)
    ensures w == ZERO <==> w.At(0) == 0 && w.At(1) == 0 && w.At(2) == 0 && w.At(3) == 0
  {
  }

  lemma TestInWord(w: Word, k: nat)
    requires k < 32
    ensures w.And(OneShifted(k)) != ZERO <==> Bit(w.At(k / 8), k % 8)
  {
    IsZero(w.And(OneShifted(k)));
    forall j: nat | j < 4
      ensures w.And(OneShifted(k)).At(j) == if j == k / 8 then Both(w.At(j), ByteBit(k % 8)) else 0
    {
      OneShiftedAt(k, j);
      AtAnd(w, OneShifted(k), j);
      Nothing(w.At(j));
    }
  }

  // ----- numbers -----

  /** 2^t. */
  function Pow2(t: nat): (p: nat)
    ensures 0 < p
  {
    if t == 0 then 1 else 2 * Pow2(t - 1)
  }

  /** The binary digit of 2^t in `n` is one. */
  predicate Digit(n: nat, t: nat) { n / Pow2(t) % 2 == 1 }

  /** `n` with that digit set to one, and to zero. */
  function WithDigit(n: nat, t: nat): nat { if Digit(n, t) then n else n + Pow2(t) }

  function WithoutDigit(n: nat, t: nat): int { if Digit(n, t) then n - Pow2(t) else n }

  /** The number of a byte. */
  function Value(b: byte): (n: nat)
    ensures n < 0x100
  {
    b as int
  }

  function Halved(b: byte): byte { b >> 1 }

  lemma HalfIsQuotient(b: byte)
    ensures Value(Halved(b)) == Value(b) / 2 && (Bit(b, 0) <==> Value(b) % 2 == 1)
  {
  }

  lemma HalfMovesBits(b: byte, t: nat)
    requires 0 < t < 8
    ensures Bit(b, t) == Bit(Halved(b), t - 1)
  {
  }

  lemma HalfOfSet(b: byte, t: nat)
    requires 0 < t < 8
    ensures Halved(Either(b, ByteBit(t))) == Either(Halved(b), ByteBit(t - 1))
    ensures Halved(Both(b, Flip(ByteBit(t)))) == Both(Halved(b), Flip(ByteBit(t - 1)))
  {
  }

  lemma QuotientOfHalf(n: nat, t: nat)
    requires 0 < t
    ensures n / Pow2(t) == n / 2 / Pow2(t - 1)
  {
    var p, h := Pow2(t - 1), n / 2;
    var q, r := h / p, h % p;
    assert h == q * p + r;
    Twice(q, p);
    Division.DivUnique(n, q, 2 * r + n % 2, 2 * p);
  }

  lemma Twice(q: int, p: int)
    ensures 2 * (q * p) == q * (2 * p)
  {
  }

  lemma DigitOfHalf(n: nat, h: nat, t: nat)
    requires 0 < t && h == n / 2
    ensures Digit(n, t) == Digit(h, t - 1)
  {
    QuotientOfHalf(n, t);
  }

  /** Bit `t` of a byte is the binary digit of 2^t in its number. */
  lemma {:induction false} BitIsDigit(b: byte, t: nat)
    requires t < 8
    ensures Bit(b, t) <==> Digit(Value(b), t)
    decreases t
  {
    HalfIsQuotient(b);
    if t > 0 {
      HalfMovesBits(b, t);
      BitIsDigit(Halved(b), t - 1);
      DigitOfHalf(Value(b), Value(Halved(b)), t);
    } else {
      assert Value(b) / 1 == Value(b);
    }
  }

  lemma LowestBit(b: byte)
    ensures Value(Either(b, ByteBit(0))) == Value(b) + (if Bit(b, 0) then 0 else 1)
    ensures Value(Both(b, Flip(ByteBit(0)))) == Value(b) - (if Bit(b, 0) then 1 else 0)
  {
    HalfIsQuotient(b);
    HalfIsQuotient(Either(b, ByteBit(0)));
    HalfIsQuotient(Both(b, Flip(ByteBit(0))));
    assert Halved(Either(b, ByteBit(0))) == Halved(b) && Halved(Both(b, Flip(ByteBit(0)))) == Halved(b);
    SetBit(b, 0, 0);
    ClearBit(b, 0, 0);
  }

  /** The halves of a number with bit `t` set or cleared. */
  lemma SetInHalf(b: byte, t: nat)
    requires 0 < t < 8
    ensures Value(Either(b, ByteBit(t))) / 2 == Value(Either(Halved(b), ByteBit(t - 1)))
    ensures Value(Either(b, ByteBit(t))) % 2 == Value(b) % 2
  {
    HalfIsQuotient(b);
    HalfIsQuotient(Either(b, ByteBit(t)));
    HalfOfSet(b, t);
    SetBit(b, t, 0);
  }

  lemma ClearInHalf(b: byte, t: nat)
    requires 0 < t < 8
    ensures Value(Both(b, Flip(ByteBit(t)))) / 2 == Value(Both(Halved(b), Flip(ByteBit(t - 1))))
    ensures Value(Both(b, Flip(ByteBit(t)))) % 2 == Value(b) % 2
  {
    HalfIsQuotient(b);
    HalfIsQuotient(Both(b, Flip(ByteBit(t))));
    HalfOfSet(b, t);
    ClearBit(b, t, 0);
  }

  /** Setting a bit adds its power of two, if it is not there yet. */
  lemma {:induction false} SetAdds(b: byte, t: nat)
    requires t < 8
    ensures Value(Either(b, ByteBit(t))) == Value(b) + (if Bit(b, t) then 0 else Pow2(t))
    decreases t
  {
    if t == 0 {
      LowestBit(b);
    } else {
      SetInHalf(b, t);
      HalfIsQuotient(b);
      HalfMovesBits(b, t);
      SetAdds(Halved(b), t - 1);
    }
  }

  /** Clearing it takes that away, if it is there. */
  lemma {:induction false} ClearSubtracts(b: byte, t: nat)
    requires t < 8
    ensures Value(Both(b, Flip(ByteBit(t)))) == Value(b) - (if Bit(b, t) then Pow2(t) else 0)
    decreases t
  {
    if t == 0 {
      LowestBit(b);
    } else {
      ClearInHalf(b, t);
      HalfIsQuotient(b);
      HalfMovesBits(b, t);
      ClearSubtracts(Halved(b), t - 1);
    }
  }

  /** The numbers of a word and of a halfword: the first byte is the least
      significant one. */
  function Number(w: Word): nat {
    Value(w.b0) + 0x100 * Value(w.b1) + 0x1_0000 * Value(w.b2) + 0x100_0000 * Value(w.b3)
  }

  function HalfNumber(h: Half): nat { Value(h.low) + 0x100 * Value(h.high) }
}
