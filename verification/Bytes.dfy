/** Bytes, little-endian words and 512-byte sectors. */
module Bytes {
  type byte = x: int | 0 <= x < 0x100
  type u16 = x: int | 0 <= x < 0x1_0000
  type u32 = x: int | 0 <= x < 0x1_0000_0000
  type u64 = x: int | 0 <= x < 0x1_0000_0000_0000_0000

  const U32 := 0x1_0000_0000
  const U64 := 0x1_0000_0000_0000_0000

  type Sector = s: seq<byte> | |s| == 512 witness seq(512, _ => 0)

  /** A medium: the sectors by logical block address. */
  type Image = seq<Sector>

  function Rd16(s: seq<byte>, i: nat): u16
    requires i + 2 <= |s|
  {
    s[i] as int + 0x100 * s[i + 1] as int
  }

  function Rd32(s: seq<byte>, i: nat): u32
    requires i + 4 <= |s|
  {
    Rd16(s, i) as int + 0x1_0000 * Rd16(s, i + 2) as int
  }

  function Wr16(s: seq<byte>, i: nat, x: u16): (r: seq<byte>)
    requires i + 2 <= |s|
    ensures |r| == |s|
  {
    s[i := x % 0x100][i + 1 := x / 0x100]
  }

  function ZeroSector(): Sector {
    seq(512, _ => 0)
  }

  // Writing one 16-bit cell reads back, and no other cell of the same alignment moves.
  lemma ReadOverWrite16(s: seq<byte>, i: nat, j: nat, x: u16)
    requires i + 2 <= |s| && j + 2 <= |s|
    requires i % 2 == j % 2
    ensures Rd16(Wr16(s, i, x), j) == if i == j then x else Rd16(s, j)
  {
  }

  // Sectors laid end to end.
  function Flat(secs: seq<Sector>): (r: seq<byte>)
    ensures |r| == |secs| * 512
  {
    seq(|secs| * 512, k requires 0 <= k < |secs| * 512 => secs[k / 512][k % 512])
  }

  lemma FlatSector(secs: seq<Sector>, i: nat, a: nat, n: nat)
    requires i < |secs| && a + n <= 512
    ensures i * 512 + a + n <= |Flat(secs)| && Flat(secs)[i * 512 + a..i * 512 + a + n] == secs[i][a..a + n]
  {
    var f := Flat(secs);
    forall x | i * 512 + a <= x < i * 512 + a + n
      ensures f[x] == secs[i][x - i * 512]
    {
      assert x / 512 == i && x % 512 == x - i * 512;
    }
  }

  // ----- little-endian words -----

  function Pow256(n: nat): (r: nat)
    ensures r > 0
  {
    if n == 0 then 1 else 0x100 * Pow256(n - 1)
  }

  function FromBytes(s: seq<byte>): (r: nat)
    ensures r < Pow256(|s|)
  {
    if s == [] then 0 else s[0] + 0x100 * FromBytes(s[1..])
  }

  // The n low bytes of x, lowest first.
  function ToBytes(x: nat, n: nat): (r: seq<byte>)
    ensures |r| == n
  {
    if n == 0 then [] else [x % 0x100] + ToBytes(x / 0x100, n - 1)
  }

  lemma {:induction false} FromToBytes(x: nat, n: nat)
    requires x < Pow256(n)
    ensures FromBytes(ToBytes(x, n)) == x
  {
    if n > 0 {
      FromToBytes(x / 0x100, n - 1);
      assert ToBytes(x, n)[1..] == ToBytes(x / 0x100, n - 1);
    }
  }

  lemma Pow256Of8()
    ensures Pow256(8) == U64
  {
    assert Pow256(4) == 0x1_0000_0000;
    assert Pow256(8) == 0x1_0000_0000 * Pow256(4);
  }

  function Rd(s: seq<byte>, i: nat, n: nat): nat
    requires i + n <= |s|
  {
    FromBytes(s[i..i + n])
  }

  function Rd64(s: seq<byte>, i: nat): (r: nat)
    requires i + 8 <= |s|
    ensures r < U64
  {
    Pow256Of8();
    Rd(s, i, 8)
  }

  function Wr64(s: seq<byte>, i: nat, x: nat): (r: seq<byte>)
    requires i + 8 <= |s|
    ensures |r| == |s|
    ensures forall k :: 0 <= k < |s| && !(i <= k < i + 8) ==> r[k] == s[k]
  {
    s[..i] + ToBytes(x, 8) + s[i + 8..]
  }

  lemma Wr64Reads(s: seq<byte>, i: nat, x: nat)
    requires i + 8 <= |s| && x < U64
    ensures Rd64(Wr64(s, i, x), i) == x
  {
    Pow256Of8();
    FromToBytes(x, 8);
    assert Wr64(s, i, x)[i..i + 8] == ToBytes(x, 8);
  }

  /** ... and the other way round: the bytes of a word are those of its value. */
  lemma {:induction false} ToFromBytes(s: seq<byte>)
    ensures ToBytes(FromBytes(s), |s|) == s
  {
    if s != [] {
      ToFromBytes(s[1..]);
      LowByte(s[0], FromBytes(s[1..]));
    }
  }

  lemma LowByte(b: byte, x: nat)
    ensures (b + 0x100 * x) % 0x100 == b && (b + 0x100 * x) / 0x100 == x
  {
  }

  lemma Pow256Values()
    ensures Pow256(1) == 0x100 && Pow256(2) == 0x1_0000 && Pow256(4) == U32 && Pow256(8) == U64
  {
    assert Pow256(2) == 0x1_0000;
    Pow256Of8();
  }

  /** The 16-bit and 32-bit reads are little-endian words of two and four bytes. */
  lemma SmallWords(s: seq<byte>, i: nat)
    requires i + 2 <= |s|
    ensures Rd16(s, i) == Rd(s, i, 2)
    ensures i + 4 <= |s| ==> Rd32(s, i) == Rd(s, i, 4)
  {
    var w := s[i..i + 2];
    assert w[1..][1..] == [] && FromBytes(w[1..]) == s[i + 1];
    if i + 4 <= |s| {
      var d := s[i..i + 4];
      assert d[1..][1..] == d[2..] && d[2..][1..] == d[3..] && d[3..][1..] == [];
      assert FromBytes(d[3..]) == s[i + 3] && FromBytes(d[2..]) == s[i + 2] as int + 0x100 * s[i + 3] as int;
      assert FromBytes(d[1..]) == s[i + 1] + 0x100 * FromBytes(d[2..]);
    }
  }

  lemma SliceOfSlice(s: seq<byte>, a: nat, b: nat, i: nat, j: nat)
    requires a <= b <= |s| && i <= j <= b - a
    ensures s[a..b][i..j] == s[a + i..a + j]
  {
    var t := s[a..b];
    assert forall k :: i <= k < j ==> t[k] == s[a + k];
  }

  /** A field laid out at place i of a record is read back from wherever the record lies. */
  lemma FieldReads(s: seq<byte>, at: nat, rec: seq<byte>, i: nat, n: nat, x: nat)
    requires at + |rec| <= |s| && s[at..at + |rec|] == rec
    requires i + n <= |rec| && rec[i..i + n] == ToBytes(x, n) && x < Pow256(n)
    ensures Rd(s, at + i, n) == x
  {
    FromToBytes(x, n);
    SliceOfSlice(s, at, at + |rec|, i, i + n);
  }
}
