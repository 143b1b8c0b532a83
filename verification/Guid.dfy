/** Partition identifiers: 16 raw bytes, and their text in mixed byte order. */
module Guid {
  import opened Bytes
  import opened Names83

  const DASH: byte := 0x2D
  const OPEN: byte := 0x7B
  const CLOSE: byte := 0x7D

  type Raw = s: seq<byte> | |s| == 16 witness seq(16, _ => 0)

  predicate IsHex(c: byte) {
    0x30 <= c <= 0x39 || 0x61 <= c <= 0x66 || 0x41 <= c <= 0x46
  }

  function HexVal(c: byte): (v: int)
    ensures IsHex(c) <==> 0 <= v
    ensures v == -1 || 0 <= v < 16
  {
    if 0x30 <= c <= 0x39 then c - 0x30
    else if 0x61 <= c <= 0x66 then c - 0x61 + 10
    else if 0x41 <= c <= 0x46 then c - 0x41 + 10
    else -1
  }

  // The upper-case digit.
  function HexDigit(v: nat): (c: byte)
    requires v < 16
    ensures IsHex(c) && HexVal(c) == v
  {
    if v < 10 then 0x30 + v else 0x41 + (v - 10)
  }

  predicate Dashed(i: nat) {
    i == 8 || i == 13 || i == 18 || i == 23
  }

  // Where raw byte k stands in the text: two digits, and the first three fields reversed.
  function PosOf(k: nat): (i: nat)
    requires k < 16
    ensures i + 2 <= 36 && !Dashed(i) && !Dashed(i + 1)
  {
    if k < 4 then 6 - 2 * k
    else if k < 6 then 11 - 2 * (k - 4)
    else if k < 8 then 16 - 2 * (k - 6)
    else if k < 10 then 19 + 2 * (k - 8)
    else 24 + 2 * (k - 10)
  }

  // Which raw byte the digit at place i belongs to.
  function ByteOf(i: nat): (k: nat)
    requires i < 36 && !Dashed(i)
    ensures k < 16 && PosOf(k) <= i < PosOf(k) + 2
  {
    if i < 8 then 3 - i / 2
    else if i < 13 then 5 - (i - 9) / 2
    else if i < 18 then 7 - (i - 14) / 2
    else if i < 23 then 8 + (i - 19) / 2
    else 10 + (i - 24) / 2
  }

  /** The standard text of an identifier, in upper case. */
  function Print(r: Raw): (t: seq<byte>)
    ensures |t| == 36
  {
    seq(36, i requires 0 <= i < 36 =>
      if Dashed(i) then DASH
      else if i == PosOf(ByteOf(i)) then HexDigit(r[ByteOf(i)] / 16) else HexDigit(r[ByteOf(i)] % 16))
  }

  // ----- what the parser accepts -----

  datatype Parsed = Uuid(raw: Raw) | NotUuid(rc: int)

  // The text without its opening brace.
  function Body(t: seq<byte>): seq<byte> {
    if t != [] && t[0] == OPEN then t[1..] else t
  }

  // A C string reads as NUL where it ends.
  function CharAt(b: seq<byte>, i: nat): byte {
    if i < |b| then b[i] else 0
  }

  predicate CharOk(b: seq<byte>, i: nat) {
    if Dashed(i) then CharAt(b, i) == DASH else IsHex(CharAt(b, i))
  }

  // The first of the 36 places, from i on, that holds the wrong kind of character.
  function FirstBad(b: seq<byte>, i: nat): (k: nat)
    requires i <= 36
    ensures i <= k <= 36 && (forall j :: i <= j < k ==> CharOk(b, j)) && (k < 36 ==> !CharOk(b, k))
    decreases 36 - i
  {
    if i == 36 || !CharOk(b, i) then i else FirstBad(b, i + 1)
  }

  predicate TailOk(b: seq<byte>) {
    CharAt(b, 36) == 0 || CharAt(b, 36) == CLOSE
  }

  function Digit(c: byte): (v: nat)
    ensures v < 16
  {
    if IsHex(c) then HexVal(c) else 0
  }

  function Pair(b: seq<byte>, i: nat): byte
    requires i + 2 <= |b|
  {
    16 * Digit(b[i]) + Digit(b[i + 1])
  }

  lemma BodyHolds(b: seq<byte>)
    requires FirstBad(b, 0) == 36 && 0 !in b
    ensures |b| >= 36 && forall i :: 0 <= i < 36 && !Dashed(i) ==> IsHex(b[i])
  {
    assert CharOk(b, 35);
    forall i | 0 <= i < 36 && !Dashed(i)
      ensures IsHex(b[i])
    {
      assert CharOk(b, i);
    }
  }

  /** `guid_parse` as a function: the raw bytes, or the code of the first deviation. */
  function Parse(t: seq<byte>): Parsed
    requires 0 !in t
  {
    var b := Body(t);
    var k := FirstBad(b, 0);
    if k < 36 then NotUuid(if Dashed(k) then -2 else -3)
    else if !TailOk(b) then NotUuid(-4)
    else
      BodyHolds(b);
      Uuid(seq(16, j requires 0 <= j < 16 => Pair(b, PosOf(j))))
  }

  lemma UpperHex(c: byte, v: nat)
    requires v < 16
    ensures Upc(c) == HexDigit(v) <==> HexVal(c) == v
  {
  }

  // A text that prints r upper-cased, place by place.
  lemma PrintedAt(b: seq<byte>, r: Raw, i: nat)
    requires i < 36 <= |b|
    ensures Upc(b[i]) == Print(r)[i] <==>
      CharOk(b, i)
        && (!Dashed(i) ==> HexVal(b[i]) == if i == PosOf(ByteOf(i)) then r[ByteOf(i)] / 16 else r[ByteOf(i)] % 16)
  {
    if !Dashed(i) {
      UpperHex(b[i], if i == PosOf(ByteOf(i)) then r[ByteOf(i)] / 16 else r[ByteOf(i)] % 16);
    }
  }

  lemma ByteOfPos(k: nat)
    requires k < 16
    ensures ByteOf(PosOf(k)) == k && ByteOf(PosOf(k) + 1) == k
  {
  }

  lemma DigitsAre(b: seq<byte>, r: Raw)
    requires |b| >= 36 && Upper(b[..36]) == Print(r)
    ensures FirstBad(b, 0) == 36
    ensures forall k :: 0 <= k < 16 ==> HexVal(b[PosOf(k)]) == r[k] / 16 && HexVal(b[PosOf(k) + 1]) == r[k] % 16
  {
    hide Print, ByteOf, PosOf;
    forall i | 0 <= i < 36
      ensures CharOk(b, i)
      ensures !Dashed(i) ==> HexVal(b[i]) == if i == PosOf(ByteOf(i)) then r[ByteOf(i)] / 16 else r[ByteOf(i)] % 16
    {
      assert Upper(b[..36])[i] == Upc(b[i]);
      PrintedAt(b, r, i);
    }
    forall k | 0 <= k < 16
      ensures HexVal(b[PosOf(k)]) == r[k] / 16 && HexVal(b[PosOf(k) + 1]) == r[k] % 16
    {
      ByteOfPos(k);
    }
  }

  lemma PairIs(b: seq<byte>, r: Raw, i: nat)
    requires i < 36 <= |b| && !Dashed(i) && r[ByteOf(i)] == Pair(b, PosOf(ByteOf(i)))
    ensures Digit(b[i]) == if i == PosOf(ByteOf(i)) then r[ByteOf(i)] / 16 else r[ByteOf(i)] % 16
  {
    hide PosOf, ByteOf, Digit;
  }

  lemma ParsedPrints(b: seq<byte>, r: Raw)
    requires |b| >= 36 && FirstBad(b, 0) == 36
    requires forall k :: 0 <= k < 16 ==> r[k] == Pair(b, PosOf(k))
    ensures Upper(b[..36]) == Print(r)
  {
    hide Print, PosOf, ByteOf, Pair;
    forall i | 0 <= i < 36
      ensures Upper(b[..36])[i] == Print(r)[i]
    {
      assert CharOk(b, i);
      if !Dashed(i) {
        PairIs(b, r, i);
      }
      PrintedAt(b, r, i);
    }
  }

  /**
   Parsing undoes printing, and nothing else is accepted: a text gives r exactly when, but
   for an opening brace, its first 36 characters print r in either case and the next is the
   end or a closing brace.
   */
  lemma ParseInvertsPrint(t: seq<byte>, r: Raw)
    requires 0 !in t
    ensures Parse(t) == Uuid(r) <==> |Body(t)| >= 36 && Upper(Body(t)[..36]) == Print(r) && TailOk(Body(t))
  {
    hide Print, PosOf, FirstBad;
    var b := Body(t);
    if Parse(t) == Uuid(r) {
      BodyHolds(b);
      ParsedPrints(b, r);
    }
    if |b| >= 36 && Upper(b[..36]) == Print(r) && TailOk(b) {
      DigitsAre(b, r);
      forall k | 0 <= k < 16
        ensures Parse(t).raw[k] == r[k]
      {
        assert r[k] == 16 * (r[k] / 16) + r[k] % 16;
      }
      assert Parse(t).raw == r;
    }
  }

  // ----- the code -----

  // The value of the n digits from place i on.
  function Digits(b: seq<byte>, i: nat, n: nat): (v: nat)
    requires i + n <= |b|
  {
    if n == 0 then 0 else Digits(b, i, n - 1) * 16 + Digit(b[i + n - 1])
  }

  method ReadDigits(b: seq<byte>, i: nat, n: nat) returns (v: nat)
    requires i + n <= |b| && forall k :: i <= k < i + n ==> IsHex(b[k])
    ensures v == Digits(b, i, n)
  {
    v := 0;
    for k := 0 to n
      invariant v == Digits(b, i, k)
    {
      v := v * 16 + HexVal(b[i + k]);
    }
  }

  lemma TwoDigits(b: seq<byte>, i: nat, n: nat)
    requires i + n + 2 <= |b|
    ensures Digits(b, i, n + 2) == 0x100 * Digits(b, i, n) + Pair(b, i + n) && Digits(b, i, 0) == 0
  {
  }

  // Eight digits, as the four bytes they stand for.
  lemma EightDigits(b: seq<byte>, i: nat)
    requires i + 8 <= |b|
    ensures Digits(b, i, 8) ==
      0x100_0000 * Pair(b, i) + 0x1_0000 * Pair(b, i + 2) + 0x100 * Pair(b, i + 4) + Pair(b, i + 6)
  {
    TwoDigits(b, i, 0);
    TwoDigits(b, i, 2);
    TwoDigits(b, i, 4);
    TwoDigits(b, i, 6);
    assert Digits(b, i, 4) == 0x100 * Digits(b, i, 2) + Pair(b, i + 2);
    assert Digits(b, i, 6) == 0x100 * Digits(b, i, 4) + Pair(b, i + 4);
    assert Digits(b, i, 8) == 0x100 * Digits(b, i, 6) + Pair(b, i + 6);
  }

  lemma FourDigits(b: seq<byte>, i: nat)
    requires i + 4 <= |b|
    ensures Digits(b, i, 4) == 0x100 * Pair(b, i) + Pair(b, i + 2)
  {
    TwoDigits(b, i, 0);
    TwoDigits(b, i, 2);
  }

  lemma FourBytes(p: byte, q: byte, r: byte, s: byte)
    ensures ToBytes(0x100_0000 * p + 0x1_0000 * q + 0x100 * r + s, 4) == [s, r, q, p]
  {
    var x := 0x100_0000 * p + 0x1_0000 * q + 0x100 * r + s;
    assert x / 0x100 == 0x1_0000 * p + 0x100 * q + r;
    assert x / 0x100 / 0x100 == 0x100 * p + q;
    assert x / 0x100 / 0x100 / 0x100 == p;
    assert ToBytes(p, 1) == [p];
    assert ToBytes(0x100 * p + q, 2) == [q] + ToBytes(p, 1);
    assert ToBytes(0x1_0000 * p + 0x100 * q + r, 3) == [r] + ToBytes(0x100 * p + q, 2);
  }

  lemma TwoBytes(p: byte, q: byte)
    ensures ToBytes(0x100 * p + q, 2) == [q, p]
  {
    assert ToBytes(p, 1) == [p];
  }

  /** `guid_parse`: rc 0 and the fields, laid out little-endian, or the code of what is wrong. */
  method GuidParse(t: seq<byte>) returns (rc: int, raw: Raw)
    requires 0 !in t
    ensures rc == 0 <==> Parse(t).Uuid?
    ensures rc == 0 ==> Parse(t) == Uuid(raw)
    ensures rc != 0 ==> Parse(t) == NotUuid(rc)
  {
    hide FirstBad, Digits, Pair;
    raw := seq(16, _ => 0);
    var b := Body(t);
    var i := 0;
    while i < 36
      invariant 0 <= i <= 36 && FirstBad(b, 0) == FirstBad(b, i)
    {
      if Dashed(i) {
        if CharAt(b, i) != DASH {
          StopsAt(b, i);
          return -2, raw;
        }
      } else if !IsHex(CharAt(b, i)) {
        StopsAt(b, i);
        return -3, raw;
      }
      GoesOn(b, i);
      i := i + 1;
    }
    AllGood(b);
    if !(CharAt(b, 36) == 0 || CharAt(b, 36) == CLOSE) {
      return -4, raw;
    }
    BodyHolds(b);
    raw := Fields(b);
    return 0, raw;
  }

  lemma StopsAt(b: seq<byte>, i: nat)
    requires i < 36 && !CharOk(b, i)
    ensures FirstBad(b, i) == i
  {
  }

  lemma GoesOn(b: seq<byte>, i: nat)
    requires i < 36 && CharOk(b, i)
    ensures FirstBad(b, i) == FirstBad(b, i + 1)
  {
  }

  lemma AllGood(b: seq<byte>)
    ensures FirstBad(b, 36) == 36
  {
  }

  /** The five fields of a checked text. */
  method Fields(b: seq<byte>) returns (raw: Raw)
    requires |b| >= 36 && forall i :: 0 <= i < 36 && !Dashed(i) ==> IsHex(b[i])
    ensures forall k :: 0 <= k < 16 ==> raw[k] == Pair(b, PosOf(k))
  {
    hide Digits, Pair;
    var d1 := ReadDigits(b, 0, 8);
    var d2 := ReadDigits(b, 9, 4);
    var d3 := ReadDigits(b, 14, 4);
    EightDigits(b, 0);
    FourDigits(b, 9);
    FourDigits(b, 14);
    FourBytes(Pair(b, 0), Pair(b, 2), Pair(b, 4), Pair(b, 6));
    TwoBytes(Pair(b, 9), Pair(b, 11));
    TwoBytes(Pair(b, 14), Pair(b, 16));
    var d4: seq<byte> := [Pair(b, 19), Pair(b, 21)];
    for i := 0 to 6
      invariant |d4| == 2 + i && d4[0] == Pair(b, 19) && d4[1] == Pair(b, 21)
      invariant forall j :: 0 <= j < i ==> d4[2 + j] == Pair(b, 24 + 2 * j)
    {
      d4 := d4 + [Pair(b, 24 + 2 * i)];
    }
    raw := ToBytes(d1, 4) + ToBytes(d2, 2) + ToBytes(d3, 2) + d4;
    Placed(b, d4, raw);
  }

  lemma Placed(b: seq<byte>, d4: seq<byte>, raw: Raw)
    requires |b| >= 36 && |d4| == 8
    requires d4[0] == Pair(b, 19) && d4[1] == Pair(b, 21) && forall j :: 0 <= j < 6 ==> d4[2 + j] == Pair(b, 24 + 2 * j)
    requires raw
      == [Pair(b, 6), Pair(b, 4), Pair(b, 2), Pair(b, 0)] + [Pair(b, 11), Pair(b, 9)] + [Pair(b, 16), Pair(b, 14)] + d4
    ensures forall k :: 0 <= k < 16 ==> raw[k] == Pair(b, PosOf(k))
  {
    hide Pair;
    forall k | 0 <= k < 16
      ensures raw[k] == Pair(b, PosOf(k))
    {
      if k >= 10 { assert raw[k] == d4[2 + (k - 10)]; }
    }
  }
}
