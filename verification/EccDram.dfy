/** DRAM with a parity word after every 32 data words, and the firmware's byte,
    halfword, word and bit accesses to it. The firmware reads the expanded
    memory directly and writes through the memory utility, which keeps the
    parity words up to date. */
module EccDram {
  import opened Common
  import Division
  import opened WordBits

  const UNIT: int := 128           // data bytes between parity words
  const EXPANDED: int := 132
  const MU_MAX_BYTES: int := 32768

  // ----- the flat view -----

  /** The bytes of a sequence of words. */
  function Flat(ws: seq<Word>): (s: seq<byte>)
    ensures |s| == 4 * |ws|
  {
    seq(4 * |ws|, i requires 0 <= i < 4 * |ws| => ws[i / 4].At(i % 4))
  }

  /** The flat memory of the emulator. */
  function Store8(s: seq<byte>, i: nat, v: byte): seq<byte>
    requires i < |s|
  {
    s[i := v]
  }

  function Store16(s: seq<byte>, i: nat, v: Half): seq<byte>
    requires i + 1 < |s|
  {
    s[i := v.low][i + 1 := v.high]
  }

  function Store32(s: seq<byte>, i: nat, v: Word): seq<byte>
    requires i + 3 < |s|
  {
    s[i := v.b0][i + 1 := v.b1][i + 2 := v.b2][i + 3 := v.b3]
  }

  function Fetch16(s: seq<byte>, i: nat): Half
    requires i + 1 < |s|
  {
    Half(s[i], s[i + 1])
  }

  function Fetch32(s: seq<byte>, i: nat): Word
    requires i + 3 < |s|
  {
    Word(s[i], s[i + 1], s[i + 2], s[i + 3])
  }

  /** Words and halfwords have their least significant byte first. */
  lemma FetchedNumber(s: seq<byte>, i: nat)
    requires i + 3 < |s|
    ensures Number(Fetch32(s, i))
         == Value(s[i]) + 0x100 * Value(s[i + 1]) + 0x1_0000 * Value(s[i + 2]) + 0x100_0000 * Value(s[i + 3])
    ensures HalfNumber(Fetch16(s, i)) == Value(s[i]) + 0x100 * Value(s[i + 1])
  {
  }

  /** What is stored is fetched again from the same place. */
  lemma StoredIsFetched(s: seq<byte>, i: nat, w: Word, h: Half)
    requires i + 3 < |s|
    ensures Fetch32(Store32(s, i, w), i) == w && Fetch16(Store16(s, i, h), i) == h
    ensures forall j :: 0 <= j < |s| && !(i <= j < i + 4) ==> Store32(s, i, w)[j] == s[j]
    ensures forall j :: 0 <= j < |s| && !(i <= j < i + 2) ==> Store16(s, i, h)[j] == s[j]
  {
  }

  /** Bit `n` of a bitmap of bytes. */
  predicate BitAt(s: seq<byte>, n: nat)
    requires n < 8 * |s|
  {
    Bit(s[n / 8], n % 8)
  }

  lemma FlatWord(ws: seq<Word>, k: nat, w: Word, i: nat)
    requires k < |ws| && i < 4 * |ws|
    ensures Flat(ws[k := w])[i] == if i / 4 == k then w.At(i % 4) else Flat(ws)[i]
  {
  }

  lemma FlatStore8(ws: seq<Word>, i: nat, v: byte)
    requires i < 4 * |ws|
    ensures Flat(ws[i / 4 := Insert(ws[i / 4], i % 4, OfByte(0xFF), OfByte(v))]) == Store8(Flat(ws), i, v)
  {
    var w := Insert(ws[i / 4], i % 4, OfByte(0xFF), OfByte(v));
    forall n: nat | n < 4 * |ws| ensures Flat(ws[i / 4 := w])[n] == Store8(Flat(ws), i, v)[n] {
      FlatWord(ws, i / 4, w, n);
      InsertByte(ws[i / 4], i % 4, v, n % 4);
    }
  }

  /** A halfword store within a word is the flat one; at the last byte of a word
      only its low byte arrives. */
  lemma FlatStore16(ws: seq<Word>, i: nat, v: Half)
    requires i + 1 < 4 * |ws|
    ensures Flat(WordStore16(ws, i, v))
         == if i % 4 != 3 then Store16(Flat(ws), i, v) else Store8(Flat(ws), i, v.low)
  {
    var w := Insert(ws[i / 4], i % 4, OfHalf(Half(0xFF, 0xFF)), OfHalf(v));
    var s := if i % 4 != 3 then Store16(Flat(ws), i, v) else Store8(Flat(ws), i, v.low);
    forall n: nat | n < 4 * |ws| ensures Flat(ws[i / 4 := w])[n] == s[n] {
      FlatWord(ws, i / 4, w, n);
      InsertHalf(ws[i / 4], i % 4, v, n % 4);
    }
  }

  lemma FlatStore32(ws: seq<Word>, k: nat, v: Word, i: nat)
    requires k < |ws| && i == 4 * k
    ensures Flat(ws[k := v]) == Store32(Flat(ws), i, v)
  {
  }

  lemma FlatFetch32(ws: seq<Word>, k: nat, i: nat)
    requires k < |ws| && i == 4 * k
    ensures Fetch32(Flat(ws), i) == ws[k]
  {
  }

  /** The halfword of the word at byte `i`, shifted down: above the end of the
      word there are zeros. */
  lemma FlatFetch16(ws: seq<Word>, i: nat)
    requires i + 1 < 4 * |ws|
    ensures WordFetch16(ws, i) == if i % 4 != 3 then Fetch16(Flat(ws), i) else Half(Flat(ws)[i], 0)
  {
  }

  /** Halfword accesses within the aligned word that holds byte `i`. */
  function WordStore16(ws: seq<Word>, i: nat, v: Half): seq<Word>
    requires i / 4 < |ws|
  {
    ws[i / 4 := Insert(ws[i / 4], i % 4, OfHalf(Half(0xFF, 0xFF)), OfHalf(v))]
  }

  function WordFetch16(ws: seq<Word>, i: nat): Half
    requires i / 4 < |ws|
  {
    Half(ws[i / 4].Down(i % 4).b0, ws[i / 4].Down(i % 4).b1)
  }

  /** Exactly the addresses that are not the last byte of a word can be accessed
      as halfwords: there a store, and a fetch, is the flat one for all contents. */
  lemma HalfwordsExact(n: nat, i: nat)
    requires i + 1 < 4 * n
    ensures i % 4 != 3 <==> forall ws: seq<Word>, v: Half :: |ws| == n ==>
                              Flat(WordStore16(ws, i, v)) == Store16(Flat(ws), i, v)
    ensures i % 4 != 3 <==> forall ws: seq<Word> :: |ws| == n ==> WordFetch16(ws, i) == Fetch16(Flat(ws), i)
  {
    if i % 4 != 3 {
      forall ws: seq<Word>, v: Half | |ws| == n ensures Flat(WordStore16(ws, i, v)) == Store16(Flat(ws), i, v) {
        FlatStore16(ws, i, v);
      }
      forall ws: seq<Word> | |ws| == n ensures WordFetch16(ws, i) == Fetch16(Flat(ws), i) {
        FlatFetch16(ws, i);
      }
    } else {
      var ws, v := seq(n, _ => Word(1, 1, 1, 1)), Half(1, 2);
      FlatStore16(ws, i, v);
      FlatFetch16(ws, i);
      assert Store16(Flat(ws), i, v)[i + 1] == 2 && Store8(Flat(ws), i, v.low)[i + 1] == 1;
      assert Flat(WordStore16(ws, i, v)) != Store16(Flat(ws), i, v);
      assert WordFetch16(ws, i) != Fetch16(Flat(ws), i);
    }
  }

  // ----- bits -----

  /** Bit `b` of word `k` is bit b % 8 of byte b / 8 of that word. */
  lemma BitIndex(n: nat, k: nat, b: nat)
    requires b < 32
    ensures n == 32 * k + b <==> n / 8 / 4 == k && n / 8 % 4 == b / 8 && n % 8 == b % 8
  {
    if n == 32 * k + b { assert n / 8 == 4 * k + b / 8; }
  }

  lemma FlatSetBit(ws: seq<Word>, k: nat, b: nat, n: nat)
    requires k < |ws| && b < 32 && n < 32 * |ws|
    ensures BitAt(Flat(ws[k := ws[k].Or(OneShifted(b))]), n) == (n == 32 * k + b || BitAt(Flat(ws), n))
  {
    var w := ws[k].Or(OneShifted(b));
    BitIndex(n, k, b);
    FlatWord(ws, k, w, n / 8);
    SetInWord(ws[k], b, n / 8 % 4);
    SetBit(Flat(ws)[n / 8], b % 8, n % 8);
  }

  lemma FlatClearBit(ws: seq<Word>, k: nat, b: nat, n: nat)
    requires k < |ws| && b < 32 && n < 32 * |ws|
    ensures BitAt(Flat(ws[k := ws[k].And(OneShifted(b).Not())]), n) == (n != 32 * k + b && BitAt(Flat(ws), n))
  {
    var w := ws[k].And(OneShifted(b).Not());
    BitIndex(n, k, b);
    FlatWord(ws, k, w, n / 8);
    ClearInWord(ws[k], b, n / 8 % 4);
    ClearBit(Flat(ws)[n / 8], b % 8, n % 8);
  }

  lemma FlatTestBit(ws: seq<Word>, k: nat, b: nat, n: nat)
    requires k < |ws| && b < 32 && n == 32 * k + b
    ensures ws[k].And(OneShifted(b)) != ZERO <==> BitAt(Flat(ws), n)
  {
    TestInWord(ws[k], b);
    BitIndex(n, k, b);
  }

  /** The same for the numbers that the bytes hold. */
  lemma FlatSetNumber(ws: seq<Word>, k: nat, b: nat, i: nat)
    requires k < |ws| && b < 32 && i == 4 * k + b / 8
    ensures Value(Flat(ws[k := ws[k].Or(OneShifted(b))])[i])
         == WithDigit(Value(Flat(ws)[i]), b % 8)
  {
    FlatWord(ws, k, ws[k].Or(OneShifted(b)), i);
    SetInWord(ws[k], b, i % 4);
    SetAdds(Flat(ws)[i], b % 8);
    BitIsDigit(Flat(ws)[i], b % 8);
  }

  lemma FlatClearNumber(ws: seq<Word>, k: nat, b: nat, i: nat)
    requires k < |ws| && b < 32 && i == 4 * k + b / 8
    ensures Value(Flat(ws[k := ws[k].And(OneShifted(b).Not())])[i])
         == WithoutDigit(Value(Flat(ws)[i]), b % 8)
  {
    FlatWord(ws, k, ws[k].And(OneShifted(b).Not()), i);
    ClearInWord(ws[k], b, i % 4);
    ClearSubtracts(Flat(ws)[i], b % 8);
    BitIsDigit(Flat(ws)[i], b % 8);
  }

  lemma FlatSetElsewhere(ws: seq<Word>, k: nat, b: nat, i: nat)
    requires k < |ws| && b < 32 && i < 4 * |ws| && i != 4 * k + b / 8
    ensures Flat(ws[k := ws[k].Or(OneShifted(b))])[i] == Flat(ws)[i]
  {
    FlatWord(ws, k, ws[k].Or(OneShifted(b)), i);
    SetInWord(ws[k], b, i % 4);
  }

  lemma FlatClearElsewhere(ws: seq<Word>, k: nat, b: nat, i: nat)
    requires k < |ws| && b < 32 && i < 4 * |ws| && i != 4 * k + b / 8
    ensures Flat(ws[k := ws[k].And(OneShifted(b).Not())])[i] == Flat(ws)[i]
  {
    FlatWord(ws, k, ws[k].And(OneShifted(b).Not()), i);
    ClearInWord(ws[k], b, i % 4);
  }

  lemma FlatTestNumber(ws: seq<Word>, k: nat, b: nat, i: nat)
    requires k < |ws| && b < 32 && i == 4 * k + b / 8
    ensures ws[k].And(OneShifted(b)) != ZERO <==> Digit(Value(Flat(ws)[i]), b % 8)
  {
    TestInWord(ws[k], b);
    BitIsDigit(Flat(ws)[i], b % 8);
  }

  /** Where bit `n` is among the bytes. */
  lemma BitOfByte(start: nat, off: nat, k: nat, b: nat)
    requires b < 32 && 8 * start + off == 32 * k + b
    ensures start + off / 8 == 4 * k + b / 8 && off % 8 == b % 8
  {
  }

  // ----- addresses -----

  /** The address that the processor uses for a data word, in 32-bit arithmetic. */
  function RealAddr(base: u32, addr: u32): u32 {
    Wrap32(base + Wrap32(addr - base) / UNIT * EXPANDED + Wrap32(addr - base) % UNIT)
  }

  /** Index of data word `k` among all words, parity words included. */
  function Spread(k: nat): nat { k / 32 * 33 + k % 32 }

  lemma FourTimes(k: nat)
    ensures 4 * k / 128 == k / 32 && 4 * k % 128 == 4 * (k % 32)
  {
  }

  lemma RealAddrIsSpread(base: u32, units: nat, addr: u32, k: nat)
    requires base + units * EXPANDED <= TWO_TO_32 && k < 32 * units && addr == base + 4 * k
    ensures RealAddr(base, addr) == base + 4 * Spread(k)
  {
    FourTimes(k);
    assert Wrap32(addr - base) == 4 * k;
    assert 4 * Spread(k) == k / 32 * EXPANDED + 4 * (k % 32);
    assert k / 32 < units;
  }

  lemma SpreadIsData(k: nat, units: nat)
    requires k < 32 * units
    ensures Spread(k) < 33 * units && Spread(k) / 33 == k / 32 && Spread(k) % 33 == k % 32 < 32
  {
  }

  /** Different data words stay different, and none is a parity word. */
  lemma SpreadIsInjective(j: nat, k: nat)
    ensures Spread(j) == Spread(k) <==> j == k
    ensures Spread(k) % 33 != 32
  {
  }

  lemma WrapMod32(t: int)
    ensures Wrap32(t) % 32 == t % 32
  {
  }

  lemma Eighths(n: nat, r: nat)
    requires r < 8
    ensures (8 * n + r) % 32 == n % 4 * 8 + r
  {
  }

  /** The wrapped 32-bit bit offset names bit off % 8 of the byte at base + off / 8. */
  lemma BitOffset(baseAddr: u32, off: u32)
    ensures Wrap32(Wrap32(baseAddr * 8) + off) % 32 == (baseAddr + off / 8) % 4 * 8 + off % 8
  {
    WrapSum(baseAddr * 8, off);
    WrapMod32(baseAddr * 8 + off);
    Eighths(baseAddr + off / 8, off % 8);
    assert baseAddr * 8 + off == 8 * (baseAddr + off / 8) + off % 8;
  }

  /** The data words among all words. */
  function Data(all: seq<Word>, units: nat): (ws: seq<Word>)
    requires |all| == 33 * units
    ensures |ws| == 32 * units
  {
    seq(32 * units, k requires 0 <= k < 32 * units => SpreadIsData(k, units); all[Spread(k)])
  }

  /** One data word replaced, and a parity word changed in any way. */
  lemma WordReplaced(all: seq<Word>, all': seq<Word>, units: nat, k: nat, w: Word)
    requires |all| == |all'| == 33 * units && k < 32 * units && Spread(k) < 33 * units
    requires all'[Spread(k)] == w
    requires forall i :: 0 <= i < 33 * units && i != Spread(k) && i % 33 != 32 ==> all'[i] == all[i]
    ensures Data(all', units) == Data(all, units)[k := w]
  {
  }

  // ----- fills -----

  function Filled(ws: seq<Word>, k: nat, cnt: nat, v: Word): (r: seq<Word>)
    ensures |r| == |ws|
  {
    seq(|ws|, i requires 0 <= i < |ws| => if k <= i < k + cnt then v else ws[i])
  }

  lemma FilledMore(ws: seq<Word>, k: nat, cnt: nat, v: Word)
    ensures Filled(ws, k, 0, v) == ws
    ensures k + cnt < |ws| ==> Filled(ws, k, cnt, v)[k + cnt := v] == Filled(ws, k, cnt + 1, v)
  {
  }

  lemma FilledJoin(ws: seq<Word>, k: nat, cnt: nat, k': nat, cnt': nat, all: nat, v: Word)
    requires k' == k + cnt && all == cnt + cnt'
    ensures Filled(Filled(ws, k, cnt, v), k', cnt', v) == Filled(ws, k, all, v)
  {
  }

  /** The emulator fills with the low byte of the value alone. */
  function Memset(s: seq<byte>, i: nat, n: nat, v: byte): (r: seq<byte>)
    ensures |r| == |s|
  {
    seq(|s|, j requires 0 <= j < |s| => if i <= j < i + n then v else s[j])
  }

  predicate Uniform(v: Word) { v.b0 == v.b1 == v.b2 == v.b3 }

  lemma FilledByte(ws: seq<Word>, k: nat, cnt: nat, v: Word, i: nat, n: nat)
    requires k + cnt <= |ws| && 0 < cnt && i < 4 && n == 4 * k + i
    ensures Flat(Filled(ws, k, cnt, v))[n] == v.At(i)
    ensures Memset(Flat(ws), 4 * k, 4 * cnt, v.b0)[n] == v.b0
  {
    assert n / 4 == k && n % 4 == i;
    assert Filled(ws, k, cnt, v)[k] == v;
  }

  /** Both fills agree exactly when all bytes of the value are the same (or there
      is nothing to fill). */
  lemma FillsAgree(ws: seq<Word>, k: nat, cnt: nat, v: Word)
    requires k + cnt <= |ws|
    ensures Flat(Filled(ws, k, cnt, v)) == Memset(Flat(ws), 4 * k, 4 * cnt, v.b0) <==> Uniform(v) || cnt == 0
  {
    if Uniform(v) || cnt == 0 {
      var l, r := Flat(Filled(ws, k, cnt, v)), Memset(Flat(ws), 4 * k, 4 * cnt, v.b0);
      assert forall n: nat :: n < 4 * |ws| ==> l[n] == r[n];
    } else {
      FilledByte(ws, k, cnt, v, 1, 4 * k + 1);
      FilledByte(ws, k, cnt, v, 2, 4 * k + 2);
      FilledByte(ws, k, cnt, v, 3, 4 * k + 3);
    }
  }

  /** The requests that a fill is split into. */
  function Chunks(addr: nat, n: nat): (cs: seq<(nat, nat)>)
    decreases n
  {
    if n <= MU_MAX_BYTES then [(addr, n)]
    else [(addr, MU_MAX_BYTES)] + Chunks(addr + MU_MAX_BYTES, n - MU_MAX_BYTES)
  }

  /** The requests after one of `size` bytes. */
  function RestOf(addr: nat, n: nat, size: nat): seq<(nat, nat)> {
    if n <= size then [] else Chunks(addr + size, n - size)
  }

  /** Every request is aligned and not too long; each one starts where the one
      before it ends, the first at the start and the last up to the end. */
  lemma {:induction false} ChunksCover(addr: nat, n: nat)
    requires addr % UNIT == 0 && n % UNIT == 0
    ensures var cs := Chunks(addr, n);
      && cs != [] && cs[0].0 == addr && cs[|cs| - 1].0 + cs[|cs| - 1].1 == addr + n
      && (forall i :: 0 <= i < |cs| ==> cs[i].0 % UNIT == 0 && cs[i].1 % UNIT == 0 && cs[i].1 <= MU_MAX_BYTES)
      && (forall i :: 0 < i < |cs| ==> cs[i].0 == cs[i - 1].0 + cs[i - 1].1)
    decreases n
  {
    if n > MU_MAX_BYTES { ChunksCover(addr + MU_MAX_BYTES, n - MU_MAX_BYTES); }
  }

  /** Lexicographic order of byte strings of the same length. */
  function Compare(x: seq<byte>, y: seq<byte>): u32
    requires |x| == |y|
  {
    if x == [] then 0
    else if x[0] != y[0] then (if x[0] > y[0] then 1 else 0xFFFF_FFFF)
    else Compare(x[1..], y[1..])
  }

  /** The comparison is 0 for equal strings only, and changes sign when swapped. */
  lemma {:induction false} CompareIsOrder(x: seq<byte>, y: seq<byte>)
    requires |x| == |y|
    ensures Compare(x, y) == 0 <==> x == y
    ensures Compare(x, y) == 1 <==> Compare(y, x) == 0xFFFF_FFFF
    decreases |x|
  {
    if x != [] {
      assert x == [x[0]] + x[1..] && y == [y[0]] + y[1..];
      CompareIsOrder(x[1..], y[1..]);
      CompareIsOrder(y[1..], x[1..]);
    }
  }

  /** The first different byte decides: 1 when that of `x` is the larger one. */
  lemma {:induction false} FirstDifferenceDecides(x: seq<byte>, y: seq<byte>, i: nat)
    requires i < |x| == |y| && x[..i] == y[..i] && x[i] != y[i]
    ensures Compare(x, y) == if y[i] < x[i] then 1 else 0xFFFF_FFFF
    decreases i
  {
    if i > 0 {
      assert x[0] == x[..i][0] && y[0] == y[..i][0];
      assert x[1..][..i - 1] == x[..i][1..] && y[1..][..i - 1] == y[..i][1..];
      FirstDifferenceDecides(x[1..], y[1..], i - 1);
    }
  }

  lemma CompareNext(x: seq<byte>, y: seq<byte>, i: nat)
    requires i < |x| == |y|
    ensures Compare(x[i..], y[i..])
         == if x[i] != y[i] then (if x[i] > y[i] then 1 else 0xFFFF_FFFF) else Compare(x[i + 1..], y[i + 1..])
  {
  }

  class Dram {
    const base: u32
    const units: nat
    const ecc: seq<Word> -> Word     // parity word of 32 data words
    const phys: array<Word>

    // requests made to the memory utility: address and number of bytes
    var requests: seq<(nat, nat)>

    ghost predicate Valid()
      reads phys
    {
      && base % UNIT == 0 && base + units * EXPANDED <= TWO_TO_32
      && phys.Length == 33 * units
      && forall u :: 0 <= u < units ==> phys[33 * u + 32] == ecc(phys[33 * u..33 * u + 32])
    }

    function Bytes(): nat { units * UNIT }

    ghost function Words(): (ws: seq<Word>)
      requires phys.Length == 33 * units
      reads phys
      ensures |ws| == 32 * units
    {
      Data(phys[..], units)
    }

    ghost function Contents(): seq<byte>
      requires phys.Length == 33 * units
      reads phys
    {
      Flat(Words())
    }

    ghost predicate Holds(addr: int, n: nat) { base <= addr && addr + n <= base + Bytes() }

    /** `*(volatile UINT32*)real_addr`. */
    method Load(addr: u32, ghost k: nat) returns (w: Word)
      requires Valid() && k < 32 * units && addr == base + 4 * k
      ensures w == Words()[k]
    {
      RealAddrIsSpread(base, units, addr, k);
      SpreadIsData(k, units);
      var i := (RealAddr(base, addr) - base) / 4;
      assert i == Spread(k);
      w := phys[i];
    }

    /** `mem_copy` of one word: the memory utility addresses data words (here
        word `k`), and brings the parity word of their unit up to date. */
    method CopyWord(addr: u32, w: Word, k: nat)
      requires Valid() && k < 32 * units && addr == base + 4 * k
      modifies phys
      ensures Valid() && Words() == old(Words())[k := w]
    {
      var u := k / 32;
      SpreadIsData(k, units);
      phys[Spread(k)] := w;
      phys[33 * u + 32] := ecc(phys[33 * u..33 * u + 32]);
      forall v | 0 <= v < units ensures phys[33 * v + 32] == ecc(phys[33 * v..33 * v + 32]) {
        if v != u { assert phys[33 * v..33 * v + 32] == old(phys[33 * v..33 * v + 32]); }
      }
      WordReplaced(old(phys[..]), phys[..], units, k, w);
    }

    method WriteDram32(addr: u32, val: Word)
      requires Valid() && Holds(addr, 4) && addr % 4 == 0
      modifies phys
      ensures Valid() && Contents() == Store32(old(Contents()), addr - base, val)
    {
      Aligned(addr, (addr - base) / 4);
      FlatStore32(Words(), (addr - base) / 4, val, addr - base);
      CopyWord(addr, val, (addr - base) / 4);
    }

    /** The last address of a word loses the high byte. */
    method WriteDram16(addr: u32, val: Half)
      requires Valid() && Holds(addr, 2)
      modifies phys
      ensures Valid()
      ensures Contents() == if addr % 4 != 3 then Store16(old(Contents()), addr - base, val)
                            else Store8(old(Contents()), addr - base, val.low)
    {
      var offset, aligned, k := addr % 4, addr - addr % 4, (addr - base) / 4;
      Aligned(addr, k);
      FlatStore16(Words(), addr - base, val);
      var oldVal := Load(aligned, k);
      CopyWord(aligned, Insert(oldVal, offset, OfHalf(Half(0xFF, 0xFF)), OfHalf(val)), k);
    }

    method WriteDram8(addr: u32, val: byte)
      requires Valid() && Holds(addr, 1)
      modifies phys
      ensures Valid() && Contents() == Store8(old(Contents()), addr - base, val)
    {
      var offset, aligned, k := addr % 4, addr - addr % 4, (addr - base) / 4;
      Aligned(addr, k);
      FlatStore8(Words(), addr - base, val);
      var oldVal := Load(aligned, k);
      CopyWord(aligned, Insert(oldVal, offset, OfByte(0xFF), OfByte(val)), k);
    }

    /** The aligned address names the word that holds the byte. */
    lemma Aligned(addr: u32, k: int)
      requires Valid() && Holds(addr, 1) && k == (addr - base) / 4
      ensures 0 <= k < 32 * units && addr - addr % 4 == base + 4 * k && (addr - base) % 4 == addr % 4
    {
      assert base % 4 == 0;
    }

    method ReadDram8(addr: u32) returns (v: byte)
      requires Valid() && Holds(addr, 1)
      ensures v == Contents()[addr - base]
    {
      ghost var k := (addr - base) / 4;
      Aligned(addr, k);
      var val := Load(addr - addr % 4, k);
      v := val.Down(addr % 4).b0;
    }

    method ReadDram16(addr: u32) returns (v: Half)
      requires Valid() && Holds(addr, 2)
      ensures v == if addr % 4 != 3 then Fetch16(Contents(), addr - base) else Half(Contents()[addr - base], 0)
    {
      ghost var k := (addr - base) / 4;
      Aligned(addr, k);
      FlatFetch16(Words(), addr - base);
      var val := Load(addr - addr % 4, k);
      v := Half(val.Down(addr % 4).b0, val.Down(addr % 4).b1);
    }

    method ReadDram32(addr: u32) returns (v: Word)
      requires Valid() && Holds(addr, 4) && addr % 4 == 0
      ensures v == Fetch32(Contents(), addr - base)
    {
      ghost var k := (addr - base) / 4;
      Aligned(addr, k);
      v := Load(addr, k);
      FlatFetch32(Words(), k, addr - base);
    }

    // ----- fills and comparison -----

    /** MU_CMD_SET_REPT_DRAM: the memory utility fills whole units. */
    method SetReptDram(addr: u32, size: nat, val: Word, ghost k: nat, ghost cnt: nat)
      requires Valid() && size <= MU_MAX_BYTES
      requires addr == base + 4 * k && size == 4 * cnt && k + cnt <= 32 * units
      modifies this`requests, phys
      ensures Valid() && Words() == Filled(old(Words()), k, cnt, val)
      ensures requests == old(requests) + [(addr, size)]
    {
      requests := requests + [(addr, size)];
      var done := 0;
      FilledMore(Words(), k, 0, val);
      while done < size / 4
        invariant done <= cnt && Valid() && Words() == Filled(old(Words()), k, done, val)
        invariant requests == old(requests) + [(addr, size)]
      {
        FilledMore(old(Words()), k, done, val);
        CopyWord(addr + 4 * done, val, (addr - base) / 4 + done);
        done := done + 1;
      }
    }

    /** Of a fill of `ws` from word `k` on, `cnt` words are done and `left` remain,
        which are the `n` bytes from address `a` on. */
    ghost predicate Filling(ws: seq<Word>, k: nat, val: Word, cnt: nat, left: nat, a: u32, n: nat)
      reads phys
    {
      && Valid() && n == 4 * left && a == base + 4 * (k + cnt) && k + cnt + left <= |ws| == 32 * units
      && Words() == Filled(ws, k, cnt, val)
    }

    /** One request of a fill. */
    method NextRequest(a: u32, n: nat, val: Word, ghost ws: seq<Word>, ghost k: nat, ghost cnt: nat, ghost left: nat)
      returns (size: nat, ghost cnt': nat, ghost left': nat)
      requires Filling(ws, k, val, cnt, left, a, n)
      modifies this`requests, phys
      ensures size == (if n < MU_MAX_BYTES then n else MU_MAX_BYTES) && a + size < TWO_TO_32
      ensures Filling(ws, k, val, cnt', left', a + size, n - size) && cnt' + left' == cnt + left
      ensures requests + RestOf(a, n, size) == old(requests) + Chunks(a, n)
    {
      size := if n < MU_MAX_BYTES then n else MU_MAX_BYTES;
      ghost var words := if n < MU_MAX_BYTES then left else MU_MAX_BYTES / 4;
      cnt', left' := cnt + words, left - words;
      FilledJoin(ws, k, cnt, k + cnt, words, cnt', val);
      SetReptDram(a, size, val, k + cnt, words);
      assert Chunks(a, n) == [(a, size)] + RestOf(a, n, size);
    }

    lemma WholeWords(addr: u32, n: nat)
      requires Valid() && Holds(addr, n) && addr % UNIT == 0 && n % UNIT == 0
      ensures addr == base + 4 * ((addr - base) / 4) && n == 4 * (n / 4) && (addr - base) / 4 + n / 4 <= 32 * units
    {
      var b, p, q := base / 128, addr / 128, n / 128;
      assert base == 128 * b && addr == 128 * p && n == 128 * q;
      Division.DivUnique(addr - base, 32 * (p - b), 0, 4);
      Division.DivUnique(n, 32 * q, 0, 4);
    }

    lemma FillStarts(addr: u32, n: nat, val: Word)
      requires Valid() && Holds(addr, n) && addr % UNIT == 0 && n % UNIT == 0
      ensures Filling(Words(), (addr - base) / 4, val, 0, n / 4, addr, n)
    {
      WholeWords(addr, n);
      FilledMore(Words(), (addr - base) / 4, 0, val);
    }

    /** Fill with a 32-bit pattern, in requests of at most MU_MAX_BYTES. */
    method MemSetDram(addr: u32, val: Word, numBytes: nat)
      requires Valid() && Holds(addr, numBytes) && addr % UNIT == 0 && numBytes % UNIT == 0
      modifies this`requests, phys
      ensures Valid() && Words() == Filled(old(Words()), (addr - base) / 4, numBytes / 4, val)
      ensures requests == old(requests) + Chunks(addr, numBytes)
    {
      var a: u32, n: nat, size: nat := addr, numBytes, 0;
      ghost var ws, k, all := Words(), (addr - base) / 4, numBytes / 4;
      ghost var cnt: nat, left: nat, rest := 0, all, Chunks(addr, numBytes);
      FillStarts(addr, numBytes, val);
      var first := true;
      while first || n != 0
        invariant Filling(ws, k, val, cnt, left, a, n) && cnt + left == all
        invariant old(requests) + Chunks(addr, numBytes) == requests + rest
        invariant rest == if first || n != 0 then Chunks(a, n) else []
        decreases left, first
      {
        first := false;
        size, cnt, left := NextRequest(a, n, val, ws, k, cnt, left);
        rest := RestOf(a, n, size);
        a := a + size;
        n := n - size;
      }
      assert cnt == all;
    }

    /** Bytewise comparison: 0 if equal, else 1 or -1 (as UINT32) by the first
        byte that differs. */
    method MemCmpDram(addr1: u32, addr2: u32, numBytes: nat) returns (r: u32)
      requires Valid() && Holds(addr1, numBytes) && Holds(addr2, numBytes) && numBytes != 0
      ensures r == Compare(Slice(addr1, numBytes), Slice(addr2, numBytes))
    {
      ghost var x, y := Slice(addr1, numBytes), Slice(addr2, numBytes);
      var i := 0;
      while i < numBytes
        invariant i <= numBytes && Compare(x, y) == Compare(x[i..], y[i..])
      {
        var val1 := ReadSlice(addr1, numBytes, i);
        var val2 := ReadSlice(addr2, numBytes, i);
        CompareNext(x, y, i);
        if val1 != val2 { return if val1 > val2 then 1 else 0xFFFF_FFFF; }
        i := i + 1;
      }
      return 0;
    }

    ghost function Slice(addr: u32, n: nat): seq<byte>
      requires phys.Length == 33 * units && Holds(addr, n)
      reads phys
    {
      Contents()[addr - base..addr - base + n]
    }

    method ReadSlice(addr: u32, ghost n: nat, i: nat) returns (v: byte)
      requires Valid() && Holds(addr, n) && i < n
      ensures v == Slice(addr, n)[i]
    {
      v := ReadDram8(addr + i);
    }

    // ----- bits -----

    ghost function BitNumber(baseAddr: u32, off: u32): int { 8 * (baseAddr - base) + off }

    /** The byte, counted from the start of DRAM, that holds it. */
    ghost function ByteOfBit(baseAddr: u32, off: u32): int { baseAddr - base + off / 8 }

    ghost predicate HoldsBit(baseAddr: u32, off: u32) {
      base <= baseAddr && BitNumber(baseAddr, off) < 8 * Bytes()
    }

    /** Position of a bit in its aligned word. */
    function BitOffsetInWord(baseAddr: u32, off: u32): (b: nat)
      ensures b < 32
    {
      Wrap32(Wrap32(baseAddr * 8) + off) % 32
    }

    /** Bit `off` from `baseAddr` on is bit `b` of the aligned word `k`. */
    lemma BitInWord(baseAddr: u32, off: u32, k: int)
      requires Valid() && HoldsBit(baseAddr, off) && k == (baseAddr + off / 8 - base) / 4
      ensures baseAddr + off / 8 < TWO_TO_32 && 0 <= k < 32 * units
      ensures var addr := baseAddr + off / 8; addr - addr % 4 == base + 4 * k
      ensures BitNumber(baseAddr, off) == 32 * k + BitOffsetInWord(baseAddr, off)
    {
      BitOffset(baseAddr, off);
      var addr := baseAddr + off / 8;
      Aligned(addr, k);
      assert addr - base == 4 * k + addr % 4;
    }

    method SetBitDram(baseAddr: u32, off: u32)
      requires Valid() && HoldsBit(baseAddr, off)
      modifies phys
      ensures Valid()
      ensures forall n: nat :: n < 8 * Bytes() ==>
        BitAt(Contents(), n) == (n == BitNumber(baseAddr, off) || old(BitAt(Contents(), n)))
      ensures 0 <= ByteOfBit(baseAddr, off) < Bytes()
      ensures Value(Contents()[ByteOfBit(baseAddr, off)])
           == WithDigit(old(Value(Contents()[ByteOfBit(baseAddr, off)])), off % 8)
      ensures forall i: nat :: i < Bytes() && i != ByteOfBit(baseAddr, off) ==> Contents()[i] == old(Contents()[i])
    {
      var addr := baseAddr + off / 8;
      var k, b := (addr - base) / 4, BitOffsetInWord(baseAddr, off);
      BitInWord(baseAddr, off, k);
      var val := Load(addr - addr % 4, k);
      ghost var ws := Words();
      CopyWord(addr - addr % 4, val.Or(OneShifted(b)), k);
      forall n: nat | n < 8 * Bytes()
        ensures BitAt(Contents(), n) == (n == BitNumber(baseAddr, off) || BitAt(Flat(ws), n))
      {
        FlatSetBit(ws, k, b, n);
      }
      BitOfByte(baseAddr - base, off, k, b);
      FlatSetNumber(ws, k, b, ByteOfBit(baseAddr, off));
      forall i: nat | i < Bytes() && i != ByteOfBit(baseAddr, off) ensures Contents()[i] == Flat(ws)[i] {
        FlatSetElsewhere(ws, k, b, i);
      }
    }

    method ClrBitDram(baseAddr: u32, off: u32)
      requires Valid() && HoldsBit(baseAddr, off)
      modifies phys
      ensures Valid()
      ensures forall n: nat :: n < 8 * Bytes() ==>
        BitAt(Contents(), n) == (n != BitNumber(baseAddr, off) && old(BitAt(Contents(), n)))
      ensures 0 <= ByteOfBit(baseAddr, off) < Bytes()
      ensures Value(Contents()[ByteOfBit(baseAddr, off)])
           == WithoutDigit(old(Value(Contents()[ByteOfBit(baseAddr, off)])), off % 8)
      ensures forall i: nat :: i < Bytes() && i != ByteOfBit(baseAddr, off) ==> Contents()[i] == old(Contents()[i])
    {
      var addr := baseAddr + off / 8;
      var k, b := (addr - base) / 4, BitOffsetInWord(baseAddr, off);
      BitInWord(baseAddr, off, k);
      var val := Load(addr - addr % 4, k);
      ghost var ws := Words();
      CopyWord(addr - addr % 4, val.And(OneShifted(b).Not()), k);
      forall n: nat | n < 8 * Bytes()
        ensures BitAt(Contents(), n) == (n != BitNumber(baseAddr, off) && BitAt(Flat(ws), n))
      {
        FlatClearBit(ws, k, b, n);
      }
      BitOfByte(baseAddr - base, off, k, b);
      FlatClearNumber(ws, k, b, ByteOfBit(baseAddr, off));
      forall i: nat | i < Bytes() && i != ByteOfBit(baseAddr, off) ensures Contents()[i] == Flat(ws)[i] {
        FlatClearElsewhere(ws, k, b, i);
      }
    }

    lemma TestedBit(baseAddr: u32, off: u32, k: nat, b: nat)
      requires Valid() && HoldsBit(baseAddr, off) && k < 32 * units && b < 32 && BitNumber(baseAddr, off) == 32 * k + b
      ensures 0 <= BitNumber(baseAddr, off) < 8 * Bytes() && 0 <= ByteOfBit(baseAddr, off) < Bytes()
      ensures Words()[k].And(OneShifted(b)) != ZERO <==> BitAt(Contents(), BitNumber(baseAddr, off))
      ensures Words()[k].And(OneShifted(b)) != ZERO
        <==> Digit(Value(Contents()[ByteOfBit(baseAddr, off)]), off % 8)
    {
      BitOfByte(baseAddr - base, off, k, b);
      FlatTestBit(Words(), k, b, BitNumber(baseAddr, off));
      FlatTestNumber(Words(), k, b, ByteOfBit(baseAddr, off));
    }

    /** Nonzero exactly when the bit is set. */
    method TstBitDram(baseAddr: u32, off: u32) returns (r: Word)
      requires Valid() && HoldsBit(baseAddr, off)
      ensures r != ZERO <==> BitAt(Contents(), BitNumber(baseAddr, off))
      ensures 0 <= ByteOfBit(baseAddr, off) < Bytes()
      ensures r != ZERO <==> Digit(Value(Contents()[ByteOfBit(baseAddr, off)]), off % 8)
    {
      var addr := baseAddr + off / 8;
      ghost var k := (addr - base) / 4;
      var b := BitOffsetInWord(baseAddr, off);
      BitInWord(baseAddr, off, k);
      var val := Load(addr - addr % 4, k);
      r := val.And(OneShifted(b));
      TestedBit(baseAddr, off, k, b);
    }
  }
}
