/** Byte-addressed memory of the 32-bit target: little-endian words stored in a
    sequence of bytes, and the frame facts every component's proofs rest on. */
module Memory {

  const TWO32 := 0x1_0000_0000

  type byte = x: int | 0 <= x < 0x100
  type uint32 = x: int | 0 <= x < 0x1_0000_0000

  function Min(a: nat, b: nat): (m: nat) {
    if a < b then a else b
  }

  /** The word at address a, least significant byte first. */
  function LoadWord(m: seq<byte>, a: nat): (w: uint32)
    requires a + 4 <= |m|
  {
    m[a] as int + 0x100 * (m[a + 1] as int) + 0x1_0000 * (m[a + 2] as int) + 0x100_0000 * (m[a + 3] as int)
  }

  /** The two memories differ at most inside [lo, hi). */
  ghost predicate SameOutside(m: seq<byte>, r: seq<byte>, lo: nat, hi: nat) {
    && |m| == |r|
    && forall i :: 0 <= i < |m| && !(lo <= i < hi) ==> r[i] == m[i]
  }

  /** The two memories agree inside [lo, hi), which lies in them. */
  ghost predicate SameInside(m: seq<byte>, r: seq<byte>, lo: nat, hi: nat) {
    && |m| == |r| && hi <= |m|
    && forall i :: lo <= i < hi ==> r[i] == m[i]
  }

  /** A word is rebuilt from its four bytes. */
  lemma Digits(w: uint32)
    ensures w == w % 0x100 + 0x100 * (w / 0x100 % 0x100) + 0x1_0000 * (w / 0x1_0000 % 0x100)
                 + 0x100_0000 * (w / 0x100_0000)
  {
    assert w / 0x1_0000 == w / 0x100 / 0x100;
    assert w / 0x100_0000 == w / 0x1_0000 / 0x100;
  }

  lemma LowByte(m: seq<byte>, a: nat)
    requires a + 4 <= |m|
    ensures LoadWord(m, a) % 0x100 == m[a]
  {
    var high := m[a + 1] as int + 0x100 * (m[a + 2] as int) + 0x1_0000 * (m[a + 3] as int);
    assert LoadWord(m, a) == m[a] + 0x100 * high;
  }

  /** A word outside the changed range keeps its value. */
  lemma LoadFrame(m: seq<byte>, r: seq<byte>, lo: nat, hi: nat, a: nat)
    requires SameOutside(m, r, lo, hi)
    requires a + 4 <= |m|
    requires a + 4 <= lo || hi <= a
    ensures LoadWord(r, a) == LoadWord(m, a)
  {
    assert r[a] == m[a] && r[a + 1] == m[a + 1] && r[a + 2] == m[a + 2] && r[a + 3] == m[a + 3];
  }

  method FetchWord(mem: array<byte>, a: nat) returns (w: uint32)
    requires a + 4 <= mem.Length
    ensures w == LoadWord(mem[..], a)
  {
    w := mem[a] as int + 0x100 * (mem[a + 1] as int) + 0x1_0000 * (mem[a + 2] as int)
         + 0x100_0000 * (mem[a + 3] as int);
  }

  method StoreWord(mem: array<byte>, a: nat, w: uint32)
    requires a + 4 <= mem.Length
    modifies mem
    ensures SameOutside(old(mem[..]), mem[..], a, a + 4)
    ensures LoadWord(mem[..], a) == w
  {
    mem[a] := w % 0x100;
    mem[a + 1] := w / 0x100 % 0x100;
    mem[a + 2] := w / 0x1_0000 % 0x100;
    mem[a + 3] := w / 0x100_0000;
    Digits(w);
  }
}
