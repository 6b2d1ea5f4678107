/** Two sums that the device checks: the integrity word of IDENTIFY DEVICE, and
    the signature of the factory command frame. */
module Checksums {
  import opened Common

  function Sum(s: seq<int>): int { if s == [] then 0 else Sum(s[..|s| - 1]) + s[|s| - 1] }

  lemma {:induction false} SumJoins(s: seq<int>, t: seq<int>)
    ensures Sum(s + t) == Sum(s) + Sum(t)
    ensures Sum([]) == 0 && (|s| == 1 ==> Sum(s) == s[0])
    decreases |t|
  {
    if t == [] {
      assert s + t == s;
    } else {
      assert (s + t)[..|s + t| - 1] == s + t[..|t| - 1];
      SumJoins(s, t[..|t| - 1]);
    }
  }

  lemma {:induction false} SumUpdate(s: seq<int>, i: nat, v: int)
    requires i < |s|
    ensures Sum(s[i := v]) == Sum(s) - s[i] + v
    decreases |s|
  {
    var n := |s| - 1;
    if i == n {
      assert s[i := v][..n] == s[..n];
    } else {
      assert s[i := v][..n] == s[..n][i := v];
      SumUpdate(s[..n], i, v);
    }
  }

  // ----- IDENTIFY DEVICE -----

  const WORDS: nat := 256

  predicate IsByte(b: int) { 0 <= b < 0x100 }

  /** The bytes of the identify data, two for each word. */
  ghost predicate Identify(bytes: seq<int>) {
    |bytes| == 2 * WORDS && forall i :: 0 <= i < |bytes| ==> IsByte(bytes[i])
  }

  /** Word 255 is set to the signature 0xA5 and the checksum, so that all 512
      bytes sum to zero modulo 256 (section 7.16 of ATA8-ACS); no other byte
      changes. */
  method SetIntegrityWord(bytes: array<int>)
    requires Identify(bytes[..])
    modifies bytes
    ensures Identify(bytes[..]) && bytes[510] == 0xA5 && bytes[..510] == old(bytes[..510])
    ensures Sum(bytes[..]) % 0x100 == 0
  {
    var counter := 0;
    var i := 0;
    while i < 255 * 2
      invariant 0 <= i <= 510 && IsByte(counter) && bytes[..] == old(bytes[..])
      invariant counter == Sum(bytes[..i]) % 0x100
    {
      assert bytes[..i + 1][..i] == bytes[..i];
      ByteSum(Sum(bytes[..i]), bytes[i]);
      counter := (counter + bytes[i]) % 0x100;
      i := i + 1;
    }
    ghost var total := Sum(bytes[..510]);
    counter := (counter + 0xA5) % 0x100;
    counter := ((0xFF - counter) + 1) % 0x100;
    Complement(total, counter);
    bytes[510] := 0xA5;
    bytes[511] := counter;
    LastTwo(bytes[..]);
    assert bytes[..][..510] == old(bytes[..510]);
  }

  /** Sums of bytes, modulo 256. */
  lemma ByteSum(x: int, b: int)
    ensures (x % 0x100 + b) % 0x100 == (x + b) % 0x100
  {
  }

  lemma Complement(x: int, c: int)
    requires c == (0xFF - (x % 0x100 + 0xA5) % 0x100 + 1) % 0x100
    ensures IsByte(c) && (x + 0xA5 + c) % 0x100 == 0
  {
  }

  lemma LastTwo(s: seq<int>)
    requires |s| == 512
    ensures Sum(s) == Sum(s[..510]) + s[510] + s[511]
  {
    assert s[..511][..510] == s[..510];
    assert s[..512] == s && s[..512][..511] == s[..511];
  }

  // ----- the factory command frame -----

  /** Words of the frame, in 32-bit arithmetic; a frame is accepted when they sum
      to the signature. */
  function FrameSum(words: seq<u32>): u32 { Wrap32(Sum(words)) }

  /** `0 - key`. */
  function Negate(key: int): u32 { Wrap32(-key) }

  predicate Opposite(x: int, y: int) { Wrap32(x + y) == 0 }

  /** The random keys that every command sends along. */
  function WithKeys(words: seq<u32>, k1: nat, k2: nat, key: u32): seq<u32>
    requires k1 < |words| && k2 < |words| && k1 != k2
  {
    words[k1 := key][k2 := Negate(key)]
  }

  /** A frame whose keys cancel out keeps its sum when the keys are drawn anew. */
  lemma KeysKeepSum(words: seq<u32>, k1: nat, k2: nat, key: u32)
    requires k1 < |words| && k2 < |words| && k1 != k2 && Opposite(words[k1], words[k2])
    ensures FrameSum(WithKeys(words, k1, k2, key)) == FrameSum(words)
    ensures var w := WithKeys(words, k1, k2, key); Opposite(w[k1], w[k2])
  {
    SumUpdate(words, k1, key);
    SumUpdate(words[k1 := key], k2, Negate(key));
    var s, t := Sum(words), Sum(WithKeys(words, k1, k2, key));
    var x: int, y: int, z: int := words[k1], words[k2], key;
    assert t == s - (x + y) + (z + Negate(key));
    assert x + y == 0 || x + y == TWO_TO_32;
    assert z + Negate(key) == 0 || z + Negate(key) == TWO_TO_32;
    WrapTurns(s, 1);
    WrapTurns(s, -1);
  }

  lemma WrapTurns(x: int, k: int)
    requires k == 1 || k == -1
    ensures Wrap32(x + k * TWO_TO_32) == Wrap32(x)
  {
  }

  /** Entering factory mode: the last member is chosen so that the frame sums to
      the signature, whatever its other words are. */
  method Sign(words: array<u32>, last: nat, signature: u32)
    requires last < words.Length
    modifies words
    ensures FrameSum(words[..]) == signature
    ensures forall i :: 0 <= i < words.Length && i != last ==> words[i] == old(words[i])
  {
    words[last] := 0;
    var sum: u32 := 0;
    var i := 0;
    while i < words.Length
      invariant 0 <= i <= words.Length && sum == Wrap32(Sum(words[..i])) && words[last] == 0
      invariant forall j :: 0 <= j < words.Length && j != last ==> words[j] == old(words[j])
    {
      assert words[..i + 1][..i] == words[..i];
      WrapSum(Sum(words[..i]), words[i]);
      sum := Wrap32(sum + words[i]);
      i := i + 1;
    }
    ghost var zeroed := words[..];
    assert words[..i] == zeroed;
    words[last] := Wrap32(signature - sum);
    assert words[..] == zeroed[last := Wrap32(signature - sum)];
    SumUpdate(zeroed, last, Wrap32(signature - sum));
    WrapSum(Sum(zeroed), Wrap32(signature - sum));
    Signed(sum, signature);
  }

  lemma Signed(sum: u32, signature: u32)
    ensures Wrap32(sum + Wrap32(signature - sum)) == signature
  {
  }
}
