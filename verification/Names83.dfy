/** The 8.3 name code of a FAT directory entry: text component to 11 padded bytes and back. */
module Names83 {
  import opened Bytes

  const SPACE: byte := 0x20
  const DOT: byte := 0x2E
  const SLASH: byte := 0x2F
  const BACKSLASH: byte := 0x5C

  type Name11 = n: seq<byte> | |n| == 11 witness seq(11, _ => SPACE)

  datatype Encoded = Ok(name: Name11) | Bad(rc: int)

  predicate IsSep(c: byte) {
    c == SLASH || c == BACKSLASH
  }

  predicate EndsName(c: byte) {
    c == 0 || IsSep(c)
  }

  function Upc(c: byte): byte {
    if 0x61 <= c <= 0x7A then c - 0x20 else c
  }

  function Upper(s: seq<byte>): (r: seq<byte>)
    ensures |r| == |s|
  {
    seq(|s|, i requires 0 <= i < |s| => Upc(s[i]))
  }

  /** The character at `i` of a C string, whose text is followed by a NUL. */
  function At(s: seq<byte>, i: nat): byte
    requires i <= |s|
  {
    if i < |s| then s[i] else 0
  }

  // ----- specification of the encoder -----

  // First index from `i` on that ends the stem: NUL, separator or dot.
  function StemEnd(s: seq<byte>, i: nat): (r: nat)
    requires i <= |s|
    ensures i <= r <= |s|
    ensures forall k :: i <= k < r ==> !EndsName(s[k]) && s[k] != DOT
    ensures r < |s| ==> EndsName(s[r]) || s[r] == DOT
    decreases |s| - i
  {
    if i == |s| || EndsName(s[i]) || s[i] == DOT then i else StemEnd(s, i + 1)
  }

  // First index from `i` on that ends the component.
  function NameEnd(s: seq<byte>, i: nat): (r: nat)
    requires i <= |s|
    ensures i <= r <= |s|
    ensures forall k :: i <= k < r ==> !EndsName(s[k])
    ensures r < |s| ==> EndsName(s[r])
    decreases |s| - i
  {
    if i == |s| || EndsName(s[i]) then i else NameEnd(s, i + 1)
  }

  lemma NameEndAt(s: seq<byte>, i: nat, e: nat)
    requires i <= e <= |s| && (forall k :: i <= k < e ==> !EndsName(s[k])) && (e < |s| ==> EndsName(s[e]))
    ensures NameEnd(s, i) == e
  {
  }

  function Pad(s: seq<byte>, n: nat): (r: seq<byte>)
    requires |s| <= n
    ensures |r| == n
  {
    s + seq(n - |s|, _ => SPACE)
  }

  function Encode(s: seq<byte>): Encoded {
    var b := StemEnd(s, 0);
    if b > 8 then Bad(-2)
    else if At(s, b) != DOT then Ok(Pad(Upper(s[..b]), 8) + Pad([], 3))
    else
      var e := NameEnd(s, b + 1);
      if e - (b + 1) > 3 then Bad(-3)
      else Ok(Pad(Upper(s[..b]), 8) + Pad(Upper(s[b + 1..e]), 3))
  }

  // ----- case and separators -----

  // Two characters that differ in case alone, or are the two separators.
  predicate Alike(a: byte, b: byte) {
    || a == b
    || (0x41 <= a <= 0x5A && b == a + 0x20) || (0x41 <= b <= 0x5A && a == b + 0x20)
    || (a in {0x2F, 0x5C} && b in {0x2F, 0x5C})
  }

  predicate AlikeText(s: seq<byte>, t: seq<byte>) {
    |s| == |t| && forall k :: 0 <= k < |s| ==> Alike(s[k], t[k])
  }

  /** The 26 letters fold, and nothing else does; "/" and "\" separate, and nothing else does. */
  lemma Letters(i: nat, c: byte)
    ensures i < 26 ==> Upc(0x61 + i) == 0x41 + i
    ensures c < 0x61 || c > 0x7A ==> Upc(c) == c
    ensures IsSep(c) <==> c == 0x2F || c == 0x5C
  {
  }

  /** Two texts without separators are alike exactly when upper case makes them one. */
  lemma AlikeIsUpper(s: seq<byte>, t: seq<byte>)
    requires Component(s)
    ensures Component(t) && Upper(s) == Upper(t) <==> AlikeText(s, t)
  {
    if |s| == |t| {
      forall k | 0 <= k < |s|
        ensures Upper(s)[k] == Upc(s[k]) && Upper(t)[k] == Upc(t[k])
        ensures Upc(s[k]) == Upc(t[k]) && !EndsName(t[k]) <==> Alike(s[k], t[k])
      {
        assert !EndsName(s[k]);
      }
      assert Upper(s) == Upper(t) <==> forall k :: 0 <= k < |s| ==> Upper(s)[k] == Upper(t)[k];
    }
  }

  /** No encoded name holds a lower-case letter, and components that differ in case encode alike. */
  lemma EncodeFoldsCase(s: seq<byte>, t: seq<byte>)
    ensures Encode(s).Ok? ==> forall k :: 0 <= k < 11 ==> !(0x61 <= Encode(s).name[k] <= 0x7A)
    ensures Component(s) && AlikeText(s, t) ==> Encode(s) == Encode(t) && Component(t)
  {
    if Component(s) && AlikeText(s, t) {
      AlikeIsUpper(s, t);
      EncodeIgnoresCase(s);
      EncodeIgnoresCase(t);
    }
  }

  // ----- specification of the decoder -----

  function FirstSpace(s: seq<byte>): (r: nat)
    ensures r <= |s|
    ensures SPACE !in s[..r]
    ensures r < |s| ==> s[r] == SPACE
  {
    if s == [] || s[0] == SPACE then 0 else
    assert s[..1 + FirstSpace(s[1..])] == [s[0]] + s[1..][..FirstSpace(s[1..])];
    1 + FirstSpace(s[1..])
  }

  function UpToSpace(s: seq<byte>): (r: seq<byte>)
    ensures |r| == FirstSpace(s) && r <= s
  {
    s[..FirstSpace(s)]
  }

  predicate HasExt(n: Name11) {
    n[8] != SPACE || n[9] != SPACE || n[10] != SPACE
  }

  function Decode(n: Name11): (r: seq<byte>)
    ensures |r| <= 12 && SPACE !in r
  {
    UpToSpace(n[..8]) + if HasExt(n) then [DOT] + UpToSpace(n[8..]) else []
  }

  /** What `find_in_dir` compares: the decoded C string, ignoring case. */
  function Key(n: Name11): seq<byte> {
    Upper(CutNul(Decode(n)))
  }

  function CutNul(s: seq<byte>): (r: seq<byte>)
    ensures |r| <= |s| && r == s[..|r|] && 0 !in r
    ensures |r| < |s| ==> s[|r|] == 0
  {
    if s == [] || s[0] == 0 then [] else [s[0]] + CutNul(s[1..])
  }

  // ----- the two undo each other -----

  /** A component as path splitting yields it. */
  predicate Component(s: seq<byte>) {
    forall k :: 0 <= k < |s| ==> !EndsName(s[k])
  }

  // A name the encoder could have produced from what the decoder prints.
  predicate WellFormed(n: Name11) {
    && (forall k :: 0 <= k < 11 ==> !EndsName(n[k]) && Upc(n[k]) == n[k])
    && DOT !in n[..8]
    && (forall k :: 0 <= k < 7 && n[k] == SPACE ==> n[k + 1] == SPACE)
    && (forall k :: 8 <= k < 10 && n[k] == SPACE ==> n[k + 1] == SPACE)
  }

  lemma FirstSpaceIs(s: seq<byte>, k: nat)
    requires k <= |s| && SPACE !in s[..k] && (k < |s| ==> s[k] == SPACE)
    ensures FirstSpace(s) == k
  {
    assert forall j :: 0 <= j < k ==> s[j] == s[..k][j];
    assert forall j :: 0 <= j < FirstSpace(s) ==> s[j] == s[..FirstSpace(s)][j];
  }

  lemma UpToSpacePad(s: seq<byte>, n: nat)
    requires |s| <= n && SPACE !in s
    ensures UpToSpace(Pad(s, n)) == s
  {
    assert Pad(s, n)[..|s|] == s;
    FirstSpaceIs(Pad(s, n), |s|);
  }

  // Padding hides a text only where the text holds a space.
  lemma DecodePadded(u: seq<byte>, e: seq<byte>)
    requires |u| <= 8 && |e| <= 3 && SPACE !in u && SPACE !in e
    ensures Decode(Pad(u, 8) + Pad(e, 3)) == u + if e == [] then [] else [DOT] + e
  {
    var n: Name11 := Pad(u, 8) + Pad(e, 3);
    assert n[..8] == Pad(u, 8) && n[8..] == Pad(e, 3);
    UpToSpacePad(u, 8);
    UpToSpacePad(e, 3);
    if e != [] {
      assert n[8] == e[0];
    }
  }

  lemma UpperConcat(a: seq<byte>, b: seq<byte>)
    ensures Upper(a + b) == Upper(a) + Upper(b)
  {
  }

  // The position of the dot and the two fields of an encodable component.
  lemma EncodeShape(s: seq<byte>)
    requires Component(s) && Encode(s).Ok?
    ensures var b := StemEnd(s, 0);
      var e := if b < |s| then Upper(s[b + 1..]) else [];
      && b <= 8 && |e| <= 3
      && Encode(s).name == Pad(Upper(s[..b]), 8) + Pad(e, 3)
      && Upper(s) == Upper(s[..b]) + if b < |s| then [DOT] + e else []
  {
    var b := StemEnd(s, 0);
    if b < |s| {
      assert NameEnd(s, b + 1) == |s|;
      assert s[b + 1..|s|] == s[b + 1..];
      assert s == s[..b] + [DOT] + s[b + 1..];
      UpperConcat(s[..b] + [DOT], s[b + 1..]);
      UpperConcat(s[..b], [DOT]);
    } else {
      assert s == s[..b];
    }
  }

  /**
   Decoding an encoded component prints its upper-cased text exactly when the text
   holds no space and does not end in its first dot.
   */
  lemma DecodeEncode(s: seq<byte>)
    requires Component(s) && Encode(s).Ok?
    ensures Decode(Encode(s).name) == Upper(s) <==> SPACE !in s && StemEnd(s, 0) + 1 != |s|
  {
    hide Encode, Decode, Pad, UpToSpace, StemEnd, Upper, Component;
    EncodeShape(s);
    UpperSpaces(s);
    var b := StemEnd(s, 0);
    var u, e := Upper(s[..b]), if b < |s| then Upper(s[b + 1..]) else [];
    var n := Pad(u, 8) + Pad(e, 3);
    if SPACE !in s {
      assert forall k :: 0 <= k < |u| ==> u[k] == Upper(s)[k];
      assert b < |s| ==> forall k :: 0 <= k < |e| ==> e[k] == Upper(s)[b + 1 + k];
      DecodePadded(u, e);
      assert b < |s| ==> |[DOT] + e| == |s| - b;
    }
  }

  lemma UpperSpaces(s: seq<byte>)
    ensures SPACE in s <==> SPACE in Upper(s)
  {
    if SPACE in s {
      var k :| 0 <= k < |s| && s[k] == SPACE;
      assert Upper(s)[k] == SPACE;
    }
  }

  lemma FieldIsPadded(f: seq<byte>, k: nat)
    requires forall i :: 0 <= i < |f| - 1 && f[i] == SPACE ==> f[i + 1] == SPACE
    requires k < |f| && f[k] == SPACE
    ensures forall i :: k <= i < |f| ==> f[i] == SPACE
    decreases |f| - k
  {
    if k + 1 < |f| {
      FieldIsPadded(f, k + 1);
    }
  }

  lemma UpperOfUpper(f: seq<byte>)
    requires forall k :: 0 <= k < |f| ==> Upc(f[k]) == f[k]
    ensures Upper(f) == f
  {
  }

  lemma PadUpToSpace(f: seq<byte>)
    requires forall i :: 0 <= i < |f| - 1 && f[i] == SPACE ==> f[i + 1] == SPACE
    ensures Pad(UpToSpace(f), |f|) == f
  {
    if FirstSpace(f) < |f| {
      FieldIsPadded(f, FirstSpace(f));
    }
  }

  lemma StemEndIs(s: seq<byte>, i: nat, b: nat)
    requires i <= b <= |s|
    requires forall k :: i <= k < b ==> !EndsName(s[k]) && s[k] != DOT
    requires b < |s| ==> s[b] == DOT
    ensures StemEnd(s, i) == b
    decreases b - i
  {
    if i < b {
      StemEndIs(s, i + 1, b);
    }
  }

  // A field as `WellFormed` wants it, and what the decoder reads from it.
  predicate GoodField(f: seq<byte>) {
    && (forall k :: 0 <= k < |f| ==> !EndsName(f[k]) && Upc(f[k]) == f[k])
    && (forall k :: 0 <= k < |f| - 1 && f[k] == SPACE ==> f[k + 1] == SPACE)
  }

  lemma WellFormedFields(n: Name11)
    ensures WellFormed(n) <==> GoodField(n[..8]) && DOT !in n[..8] && GoodField(n[8..])
  {
    var u, e := n[..8], n[8..];
    assert forall k :: 0 <= k < 8 ==> n[k] == u[k];
    assert forall k :: 8 <= k < 11 ==> n[k] == e[k - 8];
    assert forall k :: 0 <= k < 3 ==> e[k] == n[k + 8];
  }

  lemma GoodFieldText(f: seq<byte>)
    requires GoodField(f)
    ensures var t := UpToSpace(f);
      Component(t) && Upper(t) == t && Pad(t, |f|) == f
      && (t == [] <==> forall k :: 0 <= k < |f| ==> f[k] == SPACE)
  {
    PadUpToSpace(f);
    UpperOfUpper(UpToSpace(f));
  }

  // The printed form, by fields.
  lemma DecodeFields(n: Name11)
    requires WellFormed(n)
    ensures var u, e := UpToSpace(n[..8]), UpToSpace(n[8..]);
      && n == Pad(u, 8) + Pad(e, 3) && Decode(n) == u + (if e == [] then [] else [DOT] + e)
      && Component(u) && Component(e) && Upper(u) == u && Upper(e) == e && DOT !in u
  {
    hide UpToSpace, Pad;
    WellFormedFields(n);
    GoodFieldText(n[..8]);
    GoodFieldText(n[8..]);
    assert n == n[..8] + n[8..];
    assert n[8] == n[8..][0] && n[9] == n[8..][1] && n[10] == n[8..][2];
    NoDot(n[..8]);
  }

  lemma NoDot(f: seq<byte>)
    ensures DOT !in f ==> DOT !in UpToSpace(f)
  {
  }

  // A well-formed name is rebuilt from its printed form.
  lemma EncodeDecodeWellFormed(n: Name11)
    requires WellFormed(n)
    ensures Encode(Decode(n)) == Ok(n) && Component(Decode(n))
  {
    hide Encode, Decode, Pad, UpToSpace, Upper;
    DecodeFields(n);
    EncodeFields(UpToSpace(n[..8]), UpToSpace(n[8..]));
  }

  lemma EncodeFields(u: seq<byte>, e: seq<byte>)
    requires |u| <= 8 && |e| <= 3 && Component(u) && Component(e) && DOT !in u
    ensures var s := u + if e == [] then [] else [DOT] + e;
      Component(s) && Encode(s) == Ok(Pad(Upper(u), 8) + Pad(Upper(e), 3))
  {
    var s := u + if e == [] then [] else [DOT] + e;
    StemEndIs(s, 0, |u|);
    assert s[..|u|] == u;
    if e != [] {
      assert s[|u| + 1..] == e;
      assert NameEnd(s, |u| + 1) == |s|;
      assert s[|u| + 1..|s|] == e;
    }
  }

  lemma PaddedFieldIsGood(t: seq<byte>, n: nat)
    requires |t| <= n && Component(t) && SPACE !in t
    ensures GoodField(Pad(Upper(t), n))
    ensures DOT !in t ==> DOT !in Pad(Upper(t), n)
  {
  }

  // What the encoder produces from printed text has no stray bytes.
  lemma EncodedIsWellFormed(s: seq<byte>)
    requires Encode(s).Ok? && SPACE !in s
    ensures WellFormed(Encode(s).name)
  {
    var b := StemEnd(s, 0);
    var n := Encode(s).name;
    WellFormedFields(n);
    PaddedFieldIsGood(s[..b], 8);
    assert n[..8] == Pad(Upper(s[..b]), 8);
    if At(s, b) == DOT {
      var e := NameEnd(s, b + 1);
      PaddedFieldIsGood(s[b + 1..e], 3);
      assert n[8..] == Pad(Upper(s[b + 1..e]), 3);
    } else {
      assert n[8..] == Pad([], 3);
    }
  }

  /** Encoding a decoded name gives it back exactly when the name is well formed. */
  lemma EncodeDecode(n: Name11)
    ensures Encode(Decode(n)) == Ok(n) <==> WellFormed(n)
  {
    if WellFormed(n) {
      EncodeDecodeWellFormed(n);
    } else if Encode(Decode(n)) == Ok(n) {
      EncodedIsWellFormed(Decode(n));
    }
  }

  // On well-formed names the comparison key decides the raw bytes.
  lemma KeyIsInjective(a: Name11, b: Name11)
    requires WellFormed(a) && WellFormed(b)
    ensures Key(a) == Key(b) <==> a == b
  {
    KeyOfWellFormed(a);
    KeyOfWellFormed(b);
    EncodeDecodeWellFormed(a);
    EncodeDecodeWellFormed(b);
  }

  lemma KeyOfComponent(s: seq<byte>)
    requires Component(s)
    ensures CutNul(s) == s
  {
    assert |CutNul(s)| < |s| ==> EndsName(s[|CutNul(s)|]);
  }

  lemma KeyOfWellFormed(n: Name11)
    requires WellFormed(n)
    ensures Key(n) == Decode(n)
  {
    hide Encode, Decode, Pad, UpToSpace, Upper;
    DecodeFields(n);
    EncodeDecodeWellFormed(n);
    KeyOfComponent(Decode(n));
    var u, e := UpToSpace(n[..8]), UpToSpace(n[8..]);
    UpperConcat(u, if e == [] then [] else [DOT] + e);
    UpperConcat([DOT], e);
    UpperOfUpper([DOT]);
    UpperOfUpper([]);
  }

  // The encoder ignores the case of its input.
  lemma EncodeIgnoresCase(s: seq<byte>)
    requires Component(s)
    ensures Encode(Upper(s)) == Encode(s)
  {
    var b := StemEnd(s, 0);
    StemEndIs(Upper(s), 0, b);
    UpperPart(s, 0, b);
    if b < |s| {
      WholeName(s, b + 1);
      WholeName(Upper(s), b + 1);
      UpperPart(s, b + 1, |s|);
    }
  }

  lemma WholeName(s: seq<byte>, i: nat)
    requires Component(s) && i <= |s|
    ensures NameEnd(s, i) == |s|
  {
  }

  lemma UpperPart(s: seq<byte>, a: nat, b: nat)
    requires a <= b <= |s|
    ensures Upper(Upper(s)[a..b]) == Upper(s[a..b])
  {
    assert forall k :: 0 <= k < b - a ==> Upper(s)[a..b][k] == Upc(s[a..b][k]);
  }

  // Texts too long in the stem or in the extension.
  lemma EncodedBad(s: seq<byte>)
    ensures StemEnd(s, 0) > 8 ==> Encode(s) == Bad(-2)
    ensures StemEnd(s, 0) <= 8 && At(s, StemEnd(s, 0)) == DOT && NameEnd(s, StemEnd(s, 0) + 1) > StemEnd(s, 0) + 4 ==>
      Encode(s) == Bad(-3)
  {
  }

  // Both fields, byte by byte; t is where the extension ends.
  lemma EncodedIs(s: seq<byte>, n: Name11, t: nat)
    requires StemEnd(s, 0) <= 8
    requires var b := StemEnd(s, 0);
      && (At(s, b) == DOT ==> t == NameEnd(s, b + 1) <= b + 4)
      && (At(s, b) != DOT ==> t == b + 1)
      && (forall m :: 0 <= m < 8 ==> n[m] == if m < b then Upc(s[m]) else SPACE)
      && (forall m :: 8 <= m < 11 ==> n[m] == if b + 1 + (m - 8) < t then Upc(s[b + 1 + (m - 8)]) else SPACE)
    ensures Encode(s) == Ok(n)
  {
    var b := StemEnd(s, 0);
    assert n[..8] == Pad(Upper(s[..b]), 8);
    assert n[8..] == Pad(if At(s, b) == DOT then Upper(s[b + 1..t]) else [], 3);
    assert n == n[..8] + n[8..];
  }

  // ----- the code -----

  /** `make_name11`; the last check of the source, for leftover text, never fires. */
  method MakeName11(comp: seq<byte>, out11: array<byte>) returns (rc: int)
    requires out11.Length == 11
    modifies out11
    ensures rc == 0 ==> Encode(comp) == Ok(out11[..])
    ensures rc != 0 ==> Encode(comp) == Bad(rc)
  {
    hide Encode, StemEnd, NameEnd, Upc, IsSep;
    EncodedBad(comp);
    for k := 0 to 11
      invariant forall m :: 0 <= m < k ==> out11[m] == SPACE
    {
      out11[k] := SPACE;
    }
    var i, n := 0, 0;
    ghost var b := StemEnd(comp, 0);
    while !EndsName(At(comp, i)) && At(comp, i) != DOT
      invariant n == i <= b && n <= 8
      invariant forall m :: 0 <= m < 11 ==> out11[m] == if m < n then Upc(comp[m]) else SPACE
      decreases |comp| - i
    {
      var c := Upc(At(comp, i));
      if n >= 8 {
        return -2;
      }
      out11[n] := c;
      n := n + 1;
      i := i + 1;
    }
    assert i == b;
    if At(comp, i) == DOT {
      i := i + 1;
      var e := 0;
      ghost var t := NameEnd(comp, b + 1);
      while !EndsName(At(comp, i))
        invariant i == b + 1 + e <= t && e <= 3
        invariant forall m :: 0 <= m < 8 ==> out11[m] == if m < b then Upc(comp[m]) else SPACE
        invariant forall m :: 8 <= m < 11 ==> out11[m] == if m - 8 < e then Upc(comp[b + 1 + (m - 8)]) else SPACE
        decreases |comp| - i
      {
        var c := Upc(At(comp, i));
        if e >= 3 {
          return -3;
        }
        out11[8 + e] := c;
        e := e + 1;
        i := i + 1;
      }
      assert i == t;
      EncodedIs(comp, out11[..], t);
    } else {
      EncodedIs(comp, out11[..], b + 1);
    }
    if !EndsName(At(comp, i)) {
      assert false;
      return -4;
    }
    return 0;
  }

  /** One field, up to its first space. */
  method PutField(n11: Name11, lo: nat, hi: nat, out: array<byte>, p0: nat) returns (p: nat)
    requires lo <= hi <= 11 && out.Length == 13 && p0 + (hi - lo) <= 12
    modifies out
    ensures p == p0 + FirstSpace(n11[lo..hi]) && out[p0..p] == UpToSpace(n11[lo..hi])
    ensures forall k :: 0 <= k < p0 ==> out[k] == old(out[k])
  {
    ghost var f := n11[lo..hi];
    p := p0;
    var i := lo;
    while i < hi
      invariant lo <= i <= hi && p == p0 + (i - lo) && i - lo <= FirstSpace(f)
      invariant forall k :: 0 <= k < p0 ==> out[k] == old(out[k])
      invariant forall k :: 0 <= k < i - lo ==> out[p0 + k] == f[k]
    {
      assert f[i - lo] == n11[i];
      if n11[i] == SPACE {
        break;
      }
      if p < 12 {
        out[p] := n11[i];
        p := p + 1;
      }
      i := i + 1;
    }
    assert i - lo == FirstSpace(f);
    assert out[p0..p] == f[..i - lo];
  }

  /** `name11_to_name83`, into a 13-byte buffer that ends up holding the text and a NUL. */
  method Name11ToName83(n11: Name11, out: array<byte>)
    requires out.Length == 13
    modifies out
    ensures out[..|Decode(n11)|] == Decode(n11) && out[|Decode(n11)|] == 0
  {
    hide UpToSpace, FirstSpace, Decode, HasExt;
    DecodeSplit(n11);
    var p := PutField(n11, 0, 8, out, 0);
    ghost var u := out[..p];
    assert n11[0..8] == n11[..8] && out[0..p] == u;
    var hasExt := HasExtension(n11);
    if hasExt && p < 12 {
      out[p] := DOT;
      p := p + 1;
    }
    ghost var v := out[..p];
    assert v == u + if hasExt then [DOT] else [];
    ghost var q := p;
    p := PutField(n11, 8, 11, out, p);
    assert n11[8..11] == n11[8..];
    NoExtension(n11);
    assert out[..q] == v;
    assert out[..p] == v + out[q..p];
    out[p] := 0;
  }

  method HasExtension(n11: Name11) returns (has: bool)
    ensures has == HasExt(n11)
  {
    var i := 8;
    while i < 11
      invariant 8 <= i <= 11 && forall m :: 8 <= m < i ==> n11[m] == SPACE
    {
      if n11[i] != SPACE {
        return true;
      }
      i := i + 1;
    }
    return false;
  }

  lemma DecodeSplit(n: Name11)
    ensures Decode(n)
      == UpToSpace(n[..8]) + (if HasExt(n) then [DOT] else []) + (if HasExt(n) then UpToSpace(n[8..]) else [])
  {
  }

  lemma NoExtension(n: Name11)
    ensures !HasExt(n) ==> UpToSpace(n[8..]) == []
  {
    assert n[8..][0] == n[8];
  }
}
