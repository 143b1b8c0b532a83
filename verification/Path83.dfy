/** `norm_path83`: the path text handed to the FAT16 layer, and why lookups do not notice it. */
module Path83 {
  import opened Bytes
  import opened Names83
  import opened FatVolume
  import opened FatTree

  // ----- specification: one character at a time -----

  function Push(o: seq<byte>, c: byte): seq<byte> {
    if !IsSep(c) then o + [Upc(c)]
    else if o == [] || o[|o| - 1] == SLASH then o
    else o + [SLASH]
  }

  // The copy loop, which stops at a NUL or when cap - 1 characters are out.
  function Loop(s: seq<byte>, o: seq<byte>, cap: nat): (r: seq<byte>)
    ensures o <= r && (|o| < cap ==> |r| < cap)
    decreases |s|
  {
    if s == [] || s[0] == 0 || |o| + 1 >= cap then o else Loop(s[1..], Push(o, s[0]), cap)
  }

  function Trim(o: seq<byte>): seq<byte> {
    if o != [] && o[|o| - 1] == SLASH then o[..|o| - 1] else o
  }

  /** The normalised text, in a buffer of `cap` bytes. */
  function Norm(s: seq<byte>, cap: nat): seq<byte> {
    Trim(Loop(s, [], cap))
  }

  // The canonical text of a list of components.
  function Render(comps: seq<seq<byte>>): seq<byte> {
    if comps == [] then []
    else if |comps| == 1 then comps[0]
    else comps[0] + [SLASH] + Render(comps[1..])
  }

  function UpperAll(comps: seq<seq<byte>>): (r: seq<seq<byte>>)
    ensures |r| == |comps|
  {
    seq(|comps|, i requires 0 <= i < |comps| => Upper(comps[i]))
  }

  // A buffer that cannot fill up.
  function Ample(s: seq<byte>): nat { |s| + 2 }

  function Boundary(o: seq<byte>): bool {
    o == [] || o[|o| - 1] == SLASH
  }

  // ----- an ample buffer: the canonical text of the upper-cased components -----

  lemma {:induction false} LoopWord(s: seq<byte>, o: seq<byte>, cap: nat, e: nat)
    requires e <= |s| && forall k :: 0 <= k < e ==> !EndsName(s[k])
    requires cap >= |o| + e + 2
    ensures Loop(s, o, cap) == Loop(s[e..], o + Upper(s[..e]), cap)
    decreases e
  {
    hide Loop;
    if e == 0 {
      assert s[0..] == s && o + Upper(s[..0]) == o;
    } else {
      LoopOne(s, o, cap);
      LoopWord(s[1..], o + [Upc(s[0])], cap, e - 1);
      assert s[1..][e - 1..] == s[e..];
      assert o + [Upc(s[0])] + Upper(s[1..][..e - 1]) == o + Upper(s[..e]);
    }
  }

  lemma LoopOne(s: seq<byte>, o: seq<byte>, cap: nat)
    requires s != [] && s[0] != 0 && |o| + 1 < cap
    ensures Loop(s, o, cap) == Loop(s[1..], Push(o, s[0]), cap)
  {
  }

  lemma UpperAllCons(c: seq<byte>, rest: seq<seq<byte>>)
    ensures UpperAll([c] + rest) == [Upper(c)] + UpperAll(rest)
  {
  }

  lemma {:induction false} RenderSnoc(st: seq<seq<byte>>, c: seq<byte>)
    ensures Render(st + [c]) == if st == [] then c else Render(st) + [SLASH] + c
    decreases |st|
  {
    if |st| == 1 {
      assert (st + [c])[1..] == [c];
    } else if st != [] {
      RenderSnoc(st[1..], c);
      assert (st + [c])[1..] == st[1..] + [c];
    }
  }

  lemma RenderCons(c: seq<byte>, rest: seq<seq<byte>>)
    ensures Render([c] + rest) == if rest == [] then c else c + [SLASH] + Render(rest)
  {
    assert ([c] + rest)[1..] == rest;
  }

  // From a boundary on, the loop appends the canonical text of what follows.
  lemma {:induction false} LoopRenders(s: seq<byte>, o: seq<byte>, cap: nat)
    requires Boundary(o) && cap >= |o| + |s| + 2
    ensures Trim(Loop(s, o, cap)) == if Components(s) == [] then Trim(o) else o + Render(UpperAll(Components(s)))
    decreases |s|
  {
    if s != [] && s[0] != 0 {
      if IsSep(s[0]) {
        LoopRenders(s[1..], o, cap);
      } else {
        LoopRendersWord(s, o, cap);
      }
    }
  }

  lemma {:induction false} LoopRendersWord(s: seq<byte>, o: seq<byte>, cap: nat)
    requires Boundary(o) && cap >= |o| + |s| + 2 && s != [] && !EndsName(s[0])
    ensures Trim(Loop(s, o, cap)) == o + Render(UpperAll(Components(s)))
    decreases |s|, 0
  {
    hide Render, UpperAll, Upper, Loop, Trim, Components, Boundary;
    var e := NameEnd(s, 0);
    var word, rest := s[..e], s[e..];
    var up := Upper(word);
    LoopWord(s, o, cap, e);
    WordFirst(s, o + up, cap);
    UpperAllCons(word, Components(rest));
    RenderCons(up, UpperAll(Components(rest)));
    NotSlashAtEnd(o, word);
    if rest != [] && rest[0] != 0 {
      AfterWord(rest, o + up, cap);
      LoopRenders(rest[1..], o + up + [SLASH], cap);
      var more := Render(UpperAll(Components(rest)));
      assert o + up + [SLASH] + more == o + (up + [SLASH] + more);
    }
  }

  lemma WordFirst(s: seq<byte>, o: seq<byte>, cap: nat)
    requires s != [] && !EndsName(s[0])
    ensures var e := NameEnd(s, 0);
      e > 0 && Components(s) == [s[..e]] + Components(s[e..])
      && (e < |s| && s[e] != 0 ==> IsSep(s[e]))
      && (e == |s| || s[e] == 0 ==> Loop(s[e..], o, cap) == o && Components(s[e..]) == [])
  {
  }

  lemma NotSlashAtEnd(o: seq<byte>, word: seq<byte>)
    requires word != [] && forall k :: 0 <= k < |word| ==> !EndsName(word[k])
    ensures !Boundary(o + Upper(word)) && Trim(o + Upper(word)) == o + Upper(word)
    ensures Trim(o + Upper(word) + [SLASH]) == o + Upper(word) && Boundary(o + Upper(word) + [SLASH])
  {
    assert (o + Upper(word))[|o + Upper(word)| - 1] == Upc(word[|word| - 1]);
  }

  lemma AfterWord(rest: seq<byte>, o: seq<byte>, cap: nat)
    requires rest != [] && IsSep(rest[0]) && !Boundary(o) && cap >= |o| + 2
    ensures Loop(rest, o, cap) == Loop(rest[1..], o + [SLASH], cap)
    ensures Components(rest) == Components(rest[1..])
  {
  }

  /** In an ample buffer the result is the canonical text of the upper-cased components. */
  lemma NormRenders(s: seq<byte>, cap: nat)
    requires cap >= Ample(s)
    ensures Norm(s, cap) == Render(UpperAll(Components(s)))
  {
    LoopRenders(s, [], cap);
  }

  // ----- any buffer: a prefix of that -----

  lemma {:induction false} LoopCapped(s: seq<byte>, o: seq<byte>, cap: nat, big: nat)
    requires |o| < cap <= big && big >= |o| + |s| + 2
    ensures var all := Loop(s, o, big);
      Loop(s, o, cap) == if |all| < cap then all else all[..cap - 1]
    decreases |s|
  {
    if s != [] && s[0] != 0 {
      if |o| + 1 < cap {
        LoopCapped(s[1..], Push(o, s[0]), cap, big);
      } else {
        assert o <= Loop(s, o, big);
      }
    }
  }

  // ----- normal texts, and idempotence -----

  // What the loop has written so far, and what a result looks like.
  ghost predicate Clean(t: seq<byte>) {
    && (forall k :: 0 <= k < |t| ==> t[k] != 0 && t[k] != BACKSLASH && Upc(t[k]) == t[k])
    && (t != [] ==> t[0] != SLASH)
    && (forall k :: 0 < k < |t| && t[k] == SLASH ==> t[k - 1] != SLASH)
  }

  ghost predicate IsNorm(t: seq<byte>) {
    Clean(t) && (t != [] ==> t[|t| - 1] != SLASH)
  }

  lemma {:induction false} LoopIsClean(s: seq<byte>, o: seq<byte>, cap: nat)
    requires Clean(o)
    ensures Clean(Loop(s, o, cap))
    decreases |s|
  {
    if s != [] && s[0] != 0 && |o| + 1 < cap {
      PushIsClean(o, s[0]);
      LoopIsClean(s[1..], Push(o, s[0]), cap);
    }
  }

  lemma PushIsClean(o: seq<byte>, c: byte)
    requires Clean(o) && c != 0
    ensures Clean(Push(o, c))
  {
  }

  lemma NormIsNorm(s: seq<byte>, cap: nat)
    ensures IsNorm(Norm(s, cap)) && (cap > 0 ==> |Norm(s, cap)| < cap)
  {
    LoopIsClean(s, [], cap);
  }

  lemma {:induction false} LoopOnClean(t: seq<byte>, k: nat, cap: nat)
    requires Clean(t) && k <= |t| < cap
    ensures Loop(t[k..], t[..k], cap) == t
    decreases |t| - k
  {
    if k == |t| {
      assert t[..k] == t;
    } else {
      assert t[k..][1..] == t[k + 1..] && t[..k] + [t[k]] == t[..k + 1];
      assert k > 0 ==> t[..k][|t[..k]| - 1] == t[k - 1];
      LoopOnClean(t, k + 1, cap);
    }
  }

  lemma NormOnNorm(t: seq<byte>, cap: nat)
    requires IsNorm(t) && |t| < cap
    ensures Norm(t, cap) == t
  {
    LoopOnClean(t, 0, cap);
    assert t[0..] == t && t[..0] == [];
  }

  /** Normalising is idempotent, for every text and every buffer. */
  lemma NormIdempotent(s: seq<byte>, cap: nat)
    requires cap > 0
    ensures Norm(Norm(s, cap), cap) == Norm(s, cap)
  {
    NormIsNorm(s, cap);
    NormOnNorm(Norm(s, cap), cap);
  }

  // ----- when the text fits -----

  lemma NormFits(s: seq<byte>, cap: nat)
    requires 0 < cap && |Norm(s, Ample(s))| < cap
    ensures Norm(s, cap) == Norm(s, Ample(s))
  {
    var big := if cap < Ample(s) then Ample(s) else cap;
    LoopCapped(s, [], cap, big);
    LoopCapped(s, [], Ample(s), big);
    var all := Loop(s, [], big);
    LoopShort(s, [], big);
    LoopIsClean(s, [], big);
    if |all| == cap {
      assert all[..cap - 1] == Trim(all);
    }
  }

  lemma {:induction false} LoopShort(s: seq<byte>, o: seq<byte>, cap: nat)
    ensures |Loop(s, o, cap)| <= |o| + |s|
    decreases |s|
  {
    if s != [] && s[0] != 0 && |o| + 1 < cap {
      LoopShort(s[1..], Push(o, s[0]), cap);
    }
  }

  ghost predicate RealComponents(comps: seq<seq<byte>>) {
    forall i :: 0 <= i < |comps| ==> Component(comps[i]) && comps[i] != []
  }

  lemma {:induction false} ComponentsAreReal(s: seq<byte>)
    ensures RealComponents(Components(s))
    decreases |s|
  {
    if s != [] && s[0] != 0 {
      if IsSep(s[0]) {
        ComponentsAreReal(s[1..]);
      } else {
        ComponentsAreReal(s[NameEnd(s, 0)..]);
      }
    }
  }

  lemma {:induction false} ComponentsOfRender(comps: seq<seq<byte>>)
    requires RealComponents(comps)
    ensures Components(Render(comps)) == comps
  {
    if comps != [] {
      var c, rest := comps[0], comps[1..];
      ComponentsOfRender(rest);
      var s := Render(comps);
      assert NameEnd(s, 0) == |c| by { NameEndAt(s, 0, |c|); }
      assert s[..|c|] == c;
      if rest == [] {
        assert s[|c|..] == [];
      } else {
        assert s[|c|..] == [SLASH] + Render(rest) && s[|c|..][1..] == Render(rest);
      }
      assert comps == [c] + rest;
    }
  }

  lemma UpperAllReal(comps: seq<seq<byte>>)
    requires RealComponents(comps)
    ensures RealComponents(UpperAll(comps)) && UpperAll(UpperAll(comps)) == UpperAll(comps)
  {
    forall i | 0 <= i < |comps|
      ensures Component(Upper(comps[i])) && Upper(Upper(comps[i])) == Upper(comps[i])
    {
    }
  }

  // The text the components of s need, without its NUL.
  function Canonical(s: seq<byte>): seq<byte> {
    Render(UpperAll(Components(s)))
  }

  /** The upper-cased components come through exactly when their canonical text and a NUL fit the buffer. */
  lemma NormKeepsComponents(s: seq<byte>, cap: nat)
    requires cap > 0
    ensures Components(Norm(s, cap)) == UpperAll(Components(s)) <==> |Canonical(s)| < cap
  {
    hide Render, Components, UpperAll, Norm;
    var t, comps := Norm(s, cap), Components(s);
    ComponentsAreReal(s);
    UpperAllReal(comps);
    NormRenders(s, Ample(s));
    NormIsNorm(s, cap);
    if |Canonical(s)| < cap {
      NormFits(s, cap);
      ComponentsOfRender(UpperAll(comps));
    }
    if Components(t) == UpperAll(comps) {
      NormOnNorm(t, Ample(t));
      NormRenders(t, Ample(t));
    }
  }

  // ----- lookups do not notice -----

  lemma {:induction false} WalkIgnoresCase(v: Volume, cat: Catalog, comps: seq<seq<byte>>)
    requires RealComponents(comps)
    ensures Walk(v, cat, UpperAll(comps)) == Walk(v, cat, comps)
  {
    hide Encode, Key;
    if comps != [] {
      var n := |comps| - 1;
      assert UpperAll(comps)[..n] == UpperAll(comps[..n]);
      WalkIgnoresCase(v, cat, comps[..n]);
      EncodeIgnoresCase(comps[n]);
    }
  }

  /** A lookup of the normalised text gives what a lookup of the raw text gives. */
  lemma ResolveNorm(v: Volume, cat: Catalog, s: seq<byte>, cap: nat)
    requires cap > 0 && |Canonical(s)| < cap
    ensures Resolve(v, cat, Norm(s, cap)) == Resolve(v, cat, s)
  {
    hide Walk, Norm, UpperAll, Canonical;
    NormKeepsComponents(s, cap);
    ComponentsAreReal(s);
    WalkIgnoresCase(v, cat, Components(s));
  }

  // ----- the code -----

  /** `norm_path83`; `text` is the C string, `out` the caller's buffer. */
  method NormPath83(text: seq<byte>, out: array<byte>)
    modifies out
    ensures out.Length > 0 ==>
      |Norm(text, out.Length)| < out.Length
      && out[..|Norm(text, out.Length)|] == Norm(text, out.Length) && out[|Norm(text, out.Length)|] == 0
  {
    hide Loop, Push;
    if out.Length == 0 {
      return;
    }
    out[0] := 0;
    var i: nat, j: nat := 0, 0;
    assert text[0..] == text;
    while i < |text| && IsSep(text[i])
      invariant i <= |text| && out.Length > 0
      invariant Loop(text[i..], [], out.Length) == Loop(text, [], out.Length)
    {
      LoopSkips(text, i, [], out.Length);
      i := i + 1;
    }
    assert out[..0] == [];
    while i < |text| && text[i] != 0 && j + 1 < out.Length
      invariant i <= |text| && j < out.Length
      invariant Loop(text[i..], out[..j], out.Length) == Loop(text, [], out.Length)
    {
      LoopStep(text, i, out[..j], out.Length);
      j := PushChar(out, j, text[i]);
      i := i + 1;
    }
    LoopStops(text, i, out[..j], out.Length);
    ghost var o := out[..j];
    if j > 0 && out[j - 1] == SLASH {
      assert o[|o| - 1] == SLASH;
      j := j - 1;
    }
    assert out[..j] == Trim(o);
    out[j] := 0;
  }

  lemma LoopStops(s: seq<byte>, i: nat, o: seq<byte>, cap: nat)
    requires i <= |s| && (i == |s| || s[i] == 0 || |o| + 1 >= cap)
    ensures Loop(s[i..], o, cap) == o
  {
    assert i < |s| ==> s[i..][0] == s[i];
  }

  // The body of the copy loop.
  method PushChar(out: array<byte>, j: nat, c0: byte) returns (j': nat)
    requires j < out.Length
    modifies out
    ensures j' <= j + 1 && out[..j'] == Push(old(out[..j]), c0)
  {
    ghost var o := out[..j];
    var c := c0;
    if c == BACKSLASH {
      c := SLASH;
    }
    if c == SLASH {
      if j == 0 || out[j - 1] == SLASH {
        assert j > 0 ==> o[|o| - 1] == out[j - 1];
        return j;
      }
      out[j] := SLASH;
      assert out[..j + 1] == o + [SLASH];
      return j + 1;
    }
    out[j] := Upc(c);
    assert out[..j + 1] == o + [Upc(c)];
    return j + 1;
  }

  lemma LoopStep(s: seq<byte>, i: nat, o: seq<byte>, cap: nat)
    requires i < |s| && s[i] != 0 && |o| + 1 < cap
    ensures Loop(s[i..], o, cap) == Loop(s[i + 1..], Push(o, s[i]), cap)
  {
    assert s[i..][1..] == s[i + 1..];
  }

  lemma LoopSkips(s: seq<byte>, i: nat, o: seq<byte>, cap: nat)
    requires i < |s| && IsSep(s[i]) && o == []
    ensures Loop(s[i + 1..], o, cap) == Loop(s[i..], o, cap)
  {
    assert s[i..][1..] == s[i + 1..];
  }
}
