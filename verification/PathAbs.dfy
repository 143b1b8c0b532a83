/** `path_normalize_abs`: an absolute path rewritten in place, against a stack of names. */
module PathAbs {
  import opened Bytes
  import opened Names83
  import opened FatTree
  import opened Path83

  const OUT_CAP := 256
  const NAME_CAP := 64

  function OutCap(cap: nat): (r: nat)
    ensures r <= cap && r <= 256 && (r == cap || r == 256)
  {
    if cap > OUT_CAP then OUT_CAP else cap
  }

  // ----- the stack machine -----

  // What fits the component buffer.
  function Cut(c: seq<byte>): (r: seq<byte>)
    ensures r <= c && |r| <= 63 && (r == c || |r| == 63)
  {
    if |c| < NAME_CAP then c else c[..NAME_CAP - 1]
  }

  function StackStep(st: seq<seq<byte>>, c: seq<byte>): seq<seq<byte>> {
    if Cut(c) == DOT_KEY then st
    else if Cut(c) == DOTDOT_KEY then if st == [] then st else st[..|st| - 1]
    else st + [Cut(c)]
  }

  function Stack(st: seq<seq<byte>>, comps: seq<seq<byte>>): seq<seq<byte>>
    decreases |comps|
  {
    if comps == [] then st else Stack(StackStep(st, comps[0]), comps[1..])
  }

  function Rooted(st: seq<seq<byte>>): seq<byte> {
    [SLASH] + Render(st)
  }

  // ----- the text the code builds, in a buffer with room for cap - 1 characters -----

  function Fill(o: seq<byte>, c: seq<byte>, cap: nat): (r: seq<byte>)
    ensures o <= r && (|o| < cap ==> |r| < cap)
  {
    if |o| + 1 >= cap then o
    else if |c| <= cap - 1 - |o| then o + c
    else o + c[..cap - 1 - |o|]
  }

  function Add(o: seq<byte>, c: seq<byte>, cap: nat): (r: seq<byte>)
    ensures o <= r && (|o| < cap ==> |r| < cap)
  {
    Fill(if |o| > 1 && o[|o| - 1] != SLASH then Fill(o, [SLASH], cap) else o, c, cap)
  }

  function DropName(o: seq<byte>): (r: seq<byte>)
    ensures r <= o
  {
    if |o| <= 1 || o[|o| - 1] == SLASH then o else DropName(o[..|o| - 1])
  }

  function Pop(o: seq<byte>): (r: seq<byte>)
    ensures r <= o
  {
    if |o| <= 1 then o
    else DropName(if o[|o| - 1] == SLASH then o[..|o| - 1] else o)
  }

  function TextStep(o: seq<byte>, c: seq<byte>, cap: nat): (r: seq<byte>)
    ensures |o| < cap ==> |r| < cap
  {
    if Cut(c) == DOT_KEY then o
    else if Cut(c) == DOTDOT_KEY then Pop(o)
    else Add(o, Cut(c), cap)
  }

  function Text(o: seq<byte>, comps: seq<seq<byte>>, cap: nat): (r: seq<byte>)
    ensures |o| < cap ==> |r| < cap
    decreases |comps|
  {
    if comps == [] then o else Text(TextStep(o, comps[0], cap), comps[1..], cap)
  }

  function TrimRoot(o: seq<byte>): (r: seq<byte>)
    ensures r <= o
  {
    if |o| > 1 && o[|o| - 1] == SLASH then o[..|o| - 1] else o
  }

  /** The rewritten text, in a buffer of `cap` bytes. */
  function NormAbs(s: seq<byte>, cap: nat): (r: seq<byte>)
    ensures cap >= 2 ==> |r| < OutCap(cap)
  {
    TrimRoot(Text([SLASH], Components(s), OutCap(cap)))
  }

  // ----- whatever the capacity: rooted, without doubled or trailing slashes -----

  // No two slashes in a row.
  ghost predicate Single(o: seq<byte>) {
    |o| > 0 && o[0] == SLASH && 0 !in o && forall k :: 0 < k < |o| ==> o[k - 1] != SLASH || o[k] != SLASH
  }

  /** Rooted, no NUL, no doubled slash, and no slash at the end but the root's. */
  ghost predicate Clean(o: seq<byte>) {
    Single(o) && (|o| > 1 ==> o[|o| - 1] != SLASH)
  }

  lemma {:induction false} DropNameKeeps(o: seq<byte>)
    requires Single(o)
    ensures Single(DropName(o))
    decreases |o|
  {
    if !(|o| <= 1 || o[|o| - 1] == SLASH) {
      DropNameKeeps(o[..|o| - 1]);
    }
  }

  lemma AddKeeps(o: seq<byte>, c: seq<byte>, cap: nat)
    requires Single(o) && Component(c)
    ensures Single(Add(o, c, cap))
  {
    var m := if |o| > 1 && o[|o| - 1] != SLASH then Fill(o, [SLASH], cap) else o;
    assert Single(m);
    var r := Fill(m, c, cap);
    assert forall k :: |m| <= k < |r| ==> r[k] == c[k - |m|] && !EndsName(c[k - |m|]);
  }

  lemma {:induction false} TextIsSingle(o: seq<byte>, comps: seq<seq<byte>>, cap: nat)
    requires Single(o) && RealComponents(comps)
    ensures Single(Text(o, comps, cap))
    decreases |comps|
  {
    hide Add, DropName;
    if comps != [] {
      var c := comps[0];
      if Cut(c) == DOTDOT_KEY {
        if |o| > 1 { DropNameKeeps(if o[|o| - 1] == SLASH then o[..|o| - 1] else o); }
      } else if Cut(c) != DOT_KEY {
        AddKeeps(o, Cut(c), cap);
      }
      TextIsSingle(TextStep(o, c, cap), comps[1..], cap);
    }
  }

  /** For every capacity from 2 on, the result fits and is clean. */
  lemma NormAbsIsClean(s: seq<byte>, cap: nat)
    requires cap >= 2
    ensures Clean(NormAbs(s, cap)) && |NormAbs(s, cap)| < cap
  {
    hide Text, Components;
    ComponentsAreReal(s);
    TextIsSingle([SLASH], Components(s), OutCap(cap));
    var o := Text([SLASH], Components(s), OutCap(cap));
    assert forall k :: 0 <= k < |TrimRoot(o)| ==> TrimRoot(o)[k] == o[k];
  }

  // ----- the stack behind the text, whatever the capacity -----

  /**
   The stack with a budget of characters. `open` says that the text ends in a slash after its
   last name: ".." leaves one, and so does a name of which not one character fits.
   */
  datatype Shelf = Shelf(st: seq<seq<byte>>, open: bool)

  function TextOf(m: Shelf): seq<byte> {
    Rooted(m.st) + if m.open && m.st != [] then [SLASH] else []
  }

  // A slash is due before the next name.
  predicate Due(m: Shelf) {
    m.st != [] && !m.open
  }

  // As much of the name goes on as the budget allows.
  function Push(m: Shelf, c: seq<byte>, cap: nat): Shelf {
    var room := cap - 1 - |TextOf(m)| - if Due(m) then 1 else 0;
    if room > 0 then Shelf(m.st + [if |c| <= room then c else c[..room]], false)
    else if Due(m) && room == 0 then Shelf(m.st, true)
    else m
  }

  function Drop(m: Shelf): Shelf {
    if m.st == [] then m else Shelf(m.st[..|m.st| - 1], true)
  }

  function ShelfStep(m: Shelf, c: seq<byte>, cap: nat): Shelf {
    if Cut(c) == DOT_KEY then m else if Cut(c) == DOTDOT_KEY then Drop(m) else Push(m, Cut(c), cap)
  }

  function ShelfOf(m: Shelf, comps: seq<seq<byte>>, cap: nat): Shelf
    decreases |comps|
  {
    if comps == [] then m else ShelfOf(ShelfStep(m, comps[0], cap), comps[1..], cap)
  }

  const EMPTY := Shelf([], false)

  // The stack a path leaves, in buffers of that capacity.
  function Budget(s: seq<byte>, cap: nat): seq<seq<byte>> {
    ShelfOf(EMPTY, Components(s), OutCap(cap)).st
  }

  // What can lie on the stack: a name, or the beginning of one.
  ghost predicate Part(c: seq<byte>) {
    Component(c) && 0 < |c| < NAME_CAP
  }

  ghost predicate Parts(st: seq<seq<byte>>) {
    forall i :: 0 <= i < |st| ==> Part(st[i])
  }

  ghost predicate Names(st: seq<seq<byte>>) {
    Parts(st) && forall i :: 0 <= i < |st| ==> PlainKey(st[i])
  }

  // The last name has been cut down to a dot name.
  predicate EndsCut(st: seq<seq<byte>>) {
    st != [] && !PlainKey(st[|st| - 1])
  }

  // Only the last name can have been cut, and then the buffer is full.
  ghost predicate ShelfOk(m: Shelf, cap: nat) {
    && Parts(m.st) && |TextOf(m)| < cap
    && (m.st != [] ==> Names(m.st[..|m.st| - 1]))
    && (EndsCut(m.st) ==> |Rooted(m.st)| == cap - 1)
  }

  lemma {:induction false} RenderEnds(st: seq<seq<byte>>)
    requires Parts(st) && st != []
    ensures Render(st) != [] && Render(st)[|Render(st)| - 1] != SLASH
    decreases |st|
  {
    if |st| > 1 {
      RenderEnds(st[1..]);
    }
  }

  lemma RenderNothing()
    ensures Rooted([]) == [SLASH] && TextOf(EMPTY) == [SLASH]
  {
  }

  // How the text ends.
  lemma TextEnds(m: Shelf)
    requires Parts(m.st)
    ensures var o := TextOf(m);
      && |o| > 0 && (|o| == 1 <==> m.st == []) && (m.st == [] ==> o == [SLASH])
      && (Due(m) <==> o[|o| - 1] != SLASH)
  {
    hide Render;
    RenderNothing();
    if m.st != [] { RenderEnds(m.st); }
  }

  // A name is appended to the text as it is to the stack.
  lemma PushText(m: Shelf, c: seq<byte>, cap: nat)
    requires Parts(m.st) && |TextOf(m)| < cap && Part(c)
    ensures Add(TextOf(m), c, cap) == TextOf(Push(m, c, cap))
  {
    hide Render, Parts, Part, TextOf, Fill;
    TextEnds(m);
    var o := TextOf(m);
    var room := cap - 1 - |o| - if Due(m) then 1 else 0;
    FillIs(o, [SLASH], cap);
    if room > 0 {
      var mid, piece := if Due(m) then o + [SLASH] else o, if |c| <= room then c else c[..room];
      assert Add(o, c, cap) == Fill(mid, c, cap);
      FillIs(mid, c, cap);
      PiecePushed(m, piece);
    } else {
      FillIs(o + [SLASH], c, cap);
      SlashPushed(m);
    }
  }

  lemma FillIs(o: seq<byte>, c: seq<byte>, cap: nat)
    ensures Fill(o, c, cap) ==
      if |o| + 1 >= cap then o else if |c| <= cap - 1 - |o| then o + c else o + c[..cap - 1 - |o|]
  {
  }

  lemma PiecePushed(m: Shelf, piece: seq<byte>)
    ensures TextOf(Shelf(m.st + [piece], false)) == (if Due(m) then TextOf(m) + [SLASH] else TextOf(m)) + piece
  {
    hide Render;
    RenderSnoc(m.st, piece);
    RenderNothing();
    assert Rooted(m.st + [piece]) + [] == Rooted(m.st + [piece]);
  }

  lemma SlashPushed(m: Shelf)
    ensures Due(m) ==> TextOf(Shelf(m.st, true)) == TextOf(m) + [SLASH]
  {
  }

  // While there is room, no name on the stack has been cut.
  lemma RoomMeansWhole(m: Shelf, cap: nat)
    requires ShelfOk(m, cap) && |TextOf(m)| < cap - 1
    ensures Names(m.st)
  {
    hide Render;
    if m.st != [] {
      assert m.st == m.st[..|m.st| - 1] + [m.st[|m.st| - 1]];
      assert forall i :: 0 <= i < |m.st| - 1 ==> m.st[i] == m.st[..|m.st| - 1][i];
    }
  }

  lemma PiecesAdd(st: seq<seq<byte>>, piece: seq<byte>)
    requires Names(st) && Part(piece)
    ensures Parts(st + [piece]) && Names((st + [piece])[..|st|])
    ensures EndsCut(st + [piece]) <==> !PlainKey(piece)
  {
    assert (st + [piece])[..|st|] == st;
  }

  lemma PushOk(m: Shelf, c: seq<byte>, cap: nat)
    requires ShelfOk(m, cap) && Part(c) && PlainKey(c)
    ensures ShelfOk(Push(m, c, cap), cap)
  {
    hide Render, Names, Parts, TextOf, Rooted, PlainKey, EndsCut;
    var room := cap - 1 - |TextOf(m)| - if Due(m) then 1 else 0;
    SlashPushed(m);
    if room > 0 {
      var piece := if |c| <= room then c else c[..room];
      RoomMeansWhole(m, cap);
      PiecesAdd(m.st, piece);
      PiecePushed(m, piece);
      ClosedText(m.st + [piece]);
    }
  }

  lemma ClosedText(st: seq<seq<byte>>)
    ensures TextOf(Shelf(st, false)) == Rooted(st)
  {
    hide Render;
  }

  lemma {:induction false} DropNameOf(o: seq<byte>, c: seq<byte>)
    requires o != [] && o[|o| - 1] == SLASH && Component(c)
    ensures DropName(o + c) == o
    decreases |c|
  {
    if c == [] {
      assert o + c == o;
    } else {
      var t := o + c;
      assert t[..|t| - 1] == o + c[..|c| - 1] && t[|t| - 1] == c[|c| - 1];
      assert !EndsName(c[|c| - 1]);
      DropNameOf(o, c[..|c| - 1]);
    }
  }

  lemma DropText(m: Shelf)
    requires Parts(m.st)
    ensures Pop(TextOf(m)) == TextOf(Drop(m))
  {
    hide Render, DropName;
    TextEnds(m);
    RenderNothing();
    if m.st != [] {
      var st, c := m.st[..|m.st| - 1], m.st[|m.st| - 1];
      assert m.st == st + [c] && Part(c);
      RenderSnoc(st, c);
      RenderEnds(m.st);
      assert Rooted(m.st) == TextOf(Drop(m)) + c by { assert st == [] ==> TextOf(Drop(m)) == [SLASH]; }
      assert if Due(m) then TextOf(m) == Rooted(m.st) else TextOf(m)[..|TextOf(m)| - 1] == Rooted(m.st);
      assert Pop(TextOf(m)) == DropName(Rooted(m.st));
      DropNameOf(TextOf(Drop(m)), c);
    }
  }

  lemma DropOk(m: Shelf, cap: nat)
    requires ShelfOk(m, cap)
    ensures ShelfOk(Drop(m), cap)
  {
    hide Render;
    if m.st != [] {
      var st, c := m.st[..|m.st| - 1], m.st[|m.st| - 1];
      assert m.st == st + [c] && Part(c);
      RenderSnoc(st, c);
      RenderNothing();
      assert Names(st);
      assert st != [] ==> PlainKey(st[|st| - 1]);
      assert |TextOf(Drop(m))| <= |Rooted(m.st)|;
      assert st != [] ==> Names(st[..|st| - 1]);
    }
  }

  lemma CutIsPart(c: seq<byte>)
    requires Component(c) && c != []
    ensures Part(Cut(c))
  {
  }

  lemma {:induction false} TextOfShelf(m: Shelf, comps: seq<seq<byte>>, cap: nat)
    requires ShelfOk(m, cap) && RealComponents(comps)
    ensures Text(TextOf(m), comps, cap) == TextOf(ShelfOf(m, comps, cap)) && ShelfOk(ShelfOf(m, comps, cap), cap)
    decreases |comps|
  {
    hide TextOf, Push, Drop, Pop, Add, Names;
    if comps != [] {
      var c := comps[0];
      if Cut(c) == DOTDOT_KEY {
        DropText(m);
        DropOk(m, cap);
      } else if Cut(c) != DOT_KEY {
        CutIsPart(c);
        PushText(m, Cut(c), cap);
        PushOk(m, Cut(c), cap);
      }
      TextOfShelf(ShelfStep(m, c, cap), comps[1..], cap);
    }
  }

  /**
   For every path and capacity, the result is the rendering of the budgeted stack; all its
   names but the last are whole, and if the last was cut to a dot name the buffer is full.
   */
  lemma NormAbsIsBudget(s: seq<byte>, cap: nat)
    requires cap >= 2
    ensures NormAbs(s, cap) == Rooted(Budget(s, cap)) && Parts(Budget(s, cap))
    ensures Names(Budget(s, cap)) <==> !EndsCut(Budget(s, cap))
    ensures EndsCut(Budget(s, cap)) ==> |NormAbs(s, cap)| == OutCap(cap) - 1
  {
    hide Text, ShelfOf, Components, Render;
    ComponentsAreReal(s);
    RenderNothing();
    TextOfShelf(EMPTY, Components(s), OutCap(cap));
    var m := ShelfOf(EMPTY, Components(s), OutCap(cap));
    TextEnds(m);
    if m.st != [] { RenderEnds(m.st); }
    assert m.open && m.st != [] ==> TextOf(m)[..|TextOf(m)| - 1] == Rooted(m.st);
    assert m.st != [] ==> m.st == m.st[..|m.st| - 1] + [m.st[|m.st| - 1]];
    assert forall i :: 0 <= i < |m.st| - 1 ==> m.st[i] == m.st[..|m.st| - 1][i];
  }

  // ----- with room: the plain stack -----

  // The room the components need.
  function Weight(comps: seq<seq<byte>>): nat {
    if comps == [] then 0 else |Cut(comps[0])| + 1 + Weight(comps[1..])
  }

  lemma StepHasRoom(m: Shelf, c: seq<byte>, w: nat, cap: nat)
    requires Parts(m.st) && Component(c) && c != []
    requires (|TextOf(m)| == 1 || |TextOf(m)| <= w) && w + |Cut(c)| + 1 < cap
    ensures ShelfStep(m, c, cap).st == StackStep(m.st, c) && Parts(ShelfStep(m, c, cap).st)
    ensures var n := |TextOf(ShelfStep(m, c, cap))|; n == 1 || n <= w + |Cut(c)| + 1
  {
    hide Render;
    TextEnds(m);
    CutIsPart(c);
    if Cut(c) == DOTDOT_KEY {
      DropText(m);
      PopLength(TextOf(m));
    } else if Cut(c) != DOT_KEY {
      RenderSnoc(m.st, Cut(c));
    }
  }

  lemma {:induction false} PopLength(o: seq<byte>)
    requires o != []
    ensures 1 <= |Pop(o)| <= |o|
  {
    DropNameLength(o);
    if |o| > 1 { DropNameLength(o[..|o| - 1]); }
  }

  lemma {:induction false} DropNameLength(o: seq<byte>)
    requires o != []
    ensures 1 <= |DropName(o)| <= |o|
    decreases |o|
  {
    if !(|o| <= 1 || o[|o| - 1] == SLASH) { DropNameLength(o[..|o| - 1]); }
  }

  lemma {:induction false} ShelfHasRoom(m: Shelf, comps: seq<seq<byte>>, w: nat, cap: nat)
    requires Parts(m.st) && RealComponents(comps)
    requires (|TextOf(m)| == 1 || |TextOf(m)| <= w) && w + Weight(comps) < cap
    ensures ShelfOf(m, comps, cap).st == Stack(m.st, comps)
    decreases |comps|
  {
    hide TextOf, ShelfStep, StackStep;
    if comps != [] {
      StepHasRoom(m, comps[0], w, cap);
      ShelfHasRoom(ShelfStep(m, comps[0], cap), comps[1..], w + |Cut(comps[0])| + 1, cap);
    }
  }

  lemma {:induction false} StackIsNames(st: seq<seq<byte>>, comps: seq<seq<byte>>)
    requires Names(st) && RealComponents(comps)
    ensures Names(Stack(st, comps))
    decreases |comps|
  {
    if comps != [] {
      CutIsPart(comps[0]);
      StackIsNames(StackStep(st, comps[0]), comps[1..]);
    }
  }

  /** With room for all its components, a path comes out as the rendering of its stack. */
  lemma NormAbsRenders(s: seq<byte>, cap: nat)
    requires Weight(Components(s)) < OutCap(cap)
    ensures NormAbs(s, cap) == Rooted(Stack([], Components(s))) && Names(Stack([], Components(s)))
  {
    hide Components, Rooted, NormAbs, EndsCut;
    ComponentsAreReal(s);
    RenderNothing();
    if Components(s) == [] {
      NothingToDo(s, cap);
    } else {
      hide Text, Stack, ShelfOf;
      NormAbsIsBudget(s, cap);
      ShelfHasRoom(EMPTY, Components(s), 0, OutCap(cap));
      StackIsNames([], Components(s));
    }
  }

  lemma NothingToDo(s: seq<byte>, cap: nat)
    requires Components(s) == []
    ensures NormAbs(s, cap) == [SLASH]
  {
  }

  /** A path that starts with a separator and is shorter than the buffers always has room. */
  lemma {:induction false} AbsoluteHasRoom(s: seq<byte>)
    requires s != []
    ensures Weight(Components(s)) <= |s| + if IsSep(s[0]) then 0 else 1
    decreases |s|
  {
    if s[0] != 0 {
      if IsSep(s[0]) {
        if |s| > 1 { AbsoluteHasRoom(s[1..]); }
      } else {
        var e := NameEnd(s, 0);
        assert Components(s) == [s[..e]] + Components(s[e..]);
        if e < |s| { AbsoluteHasRoom(s[e..]); }
      }
    }
  }

  // ----- fixed points -----

  /** Canonical texts: the renderings of stacks of names. */
  ghost predicate IsCanonical(t: seq<byte>) {
    exists st :: Names(st) && t == Rooted(st)
  }

  lemma {:induction false} StackOfNames(st: seq<seq<byte>>, more: seq<seq<byte>>)
    requires Names(more)
    ensures Stack(st, more) == st + more
    decreases |more|
  {
    if more != [] {
      assert Part(more[0]) && PlainKey(more[0]) && Cut(more[0]) == more[0];
      StackOfNames(st + [more[0]], more[1..]);
      assert st + [more[0]] + more[1..] == st + more;
    } else {
      assert st + more == st;
    }
  }

  lemma RootedComponents(st: seq<seq<byte>>)
    requires Parts(st)
    ensures Components(Rooted(st)) == st
  {
    hide Render;
    assert Rooted(st)[1..] == Render(st);
    ComponentsOfRender(st);
  }

  lemma CanonicalIsFixed(st: seq<seq<byte>>, cap: nat)
    requires Names(st) && |Rooted(st)| < OutCap(cap)
    ensures NormAbs(Rooted(st), cap) == Rooted(st)
  {
    hide Render, Stack, Components, Text;
    RootedComponents(st);
    AbsoluteHasRoom(Rooted(st));
    NormAbsRenders(Rooted(st), cap);
    StackOfNames([], st);
    assert [] + st == st;
  }

  /** A text that fits is left alone exactly when it is canonical. */
  lemma FixedPoints(t: seq<byte>, cap: nat)
    requires |t| < OutCap(cap) && cap >= 2
    ensures NormAbs(t, cap) == t <==> IsCanonical(t)
  {
    hide Text, Stack, Components, Rooted, NormAbs;
    if NormAbs(t, cap) == t {
      NormAbsIsClean(t, cap);
      AbsoluteHasRoom(t);
      NormAbsRenders(t, cap);
    }
    if IsCanonical(t) {
      var st :| Names(st) && t == Rooted(st);
      CanonicalIsFixed(st, cap);
    }
  }

  /**
   Normalising is idempotent exactly when the budgeted stack does not end with a name cut to
   "." or ".."; so on every path with room, and wherever the result leaves the buffer unfilled.
   */
  lemma Idempotent(s: seq<byte>, cap: nat)
    requires cap >= 2
    ensures NormAbs(NormAbs(s, cap), cap) == NormAbs(s, cap) <==> !EndsCut(Budget(s, cap))
    ensures Weight(Components(s)) < OutCap(cap) || |NormAbs(s, cap)| < OutCap(cap) - 1 ==> !EndsCut(Budget(s, cap))
  {
    hide Text, Stack, Components, Rooted, Weight, NormAbs, Budget, Parts, EndsCut;
    var st := Budget(s, cap);
    NormAbsIsBudget(s, cap);
    NormAbsIsClean(s, cap);
    FixedPoints(NormAbs(s, cap), cap);
    if IsCanonical(Rooted(st)) {
      var st' :| Names(st') && Rooted(st) == Rooted(st');
      RootedComponents(st);
      RootedComponents(st');
    }
    if Weight(Components(s)) < OutCap(cap) {
      NormAbsRenders(s, cap);
    }
  }

  /** Without room a name can be cut down to "..", which the next run then resolves. */
  lemma CutToDots()
    ensures var s := [DOT, DOT, 0x78];
      NormAbs(s, 4) == [SLASH, DOT, DOT] && NormAbs(NormAbs(s, 4), 4) == [SLASH]
  {
    var s: seq<byte> := [DOT, DOT, 0x78];
    assert NameEnd(s, 0) == 3 by { NameEndAt(s, 0, 3); }
    assert s[..3] == s && s[3..] == [];
    assert Components(s) == [s];
    assert [s][1..] == [];
    var t: seq<byte> := [SLASH, DOT, DOT];
    assert Fill([SLASH], s, 4) == t;
    assert Text([SLASH], [s], 4) == t;
    var u: seq<byte> := [DOT, DOT];
    assert NameEnd(u, 0) == 2 by { NameEndAt(u, 0, 2); }
    assert u[..2] == u && u[2..] == [] && t[1..] == u;
    assert Components(u) == [u];
    assert Components(t) == [u] && [u][1..] == [];
    assert Text([SLASH], [u], 4) == [SLASH];
  }

  // ----- the code -----

  // The text in the buffer: up to a NUL, or all but the last byte if there is none.
  function InText(p: seq<byte>): (s: seq<byte>)
    requires |p| > 0
    ensures |s| < |p| && s == p[..|s|] && 0 !in s
  {
    if |CutNul(p)| == |p| then CutNul(p)[..|p| - 1] else CutNul(p)
  }

  ghost predicate Holds(p: seq<byte>, t: seq<byte>) {
    |t| < |p| && p[..|t|] == t && p[|t|] == 0
  }

  // Past a separator, the components are the same.
  lemma SkipSep(s: seq<byte>, i: nat)
    requires i < |s| && IsSep(s[i])
    ensures Components(s[i..]) == Components(s[i + 1..])
  {
    assert s[i..][1..] == s[i + 1..];
  }

  // At a name, the components are that name and the rest.
  lemma TakeName(s: seq<byte>, i: nat, e: nat)
    requires i < e <= |s| && (forall k :: i <= k < e ==> !EndsName(s[k])) && (e < |s| ==> EndsName(s[e]))
    ensures Components(s[i..]) == [s[i..e]] + Components(s[e..])
  {
    var t := s[i..];
    NameEndAt(t, 0, e - i);
    assert t[..e - i] == s[i..e] && t[e - i..] == s[e..];
  }

  lemma TextMore(o: seq<byte>, c: seq<byte>, rest: seq<seq<byte>>, cap: nat)
    ensures Text(o, [c] + rest, cap) == Text(TextStep(o, c, cap), rest, cap)
  {
    assert ([c] + rest)[1..] == rest;
  }

  /** One component, as much of it as the component buffer holds. */
  method ReadName(p: array<byte>, i0: nat, inLen: nat, comp: array<byte>) returns (i: nat, ci: nat)
    requires i0 < inLen <= p.Length && comp.Length == NAME_CAP && p != comp
    requires !IsSep(p[i0]) && 0 !in p[..inLen]
    modifies comp
    ensures i0 < i == i0 + ci <= inLen && ci < NAME_CAP && comp[ci] == 0
    ensures comp[..ci] == p[i0..i] && forall k :: 0 <= k < ci ==> !EndsName(comp[k])
    ensures forall k :: i0 <= k < i ==> !EndsName(p[k])
    ensures ci + 1 < NAME_CAP ==> i == inLen || IsSep(p[i])
  {
    i, ci := i0, 0;
    while i < inLen && !IsSep(p[i]) && ci + 1 < NAME_CAP
      invariant i0 <= i == i0 + ci <= inLen && ci < NAME_CAP && (ci == 0 ==> i == i0)
      invariant forall k :: 0 <= k < ci ==> comp[k] == p[i0 + k] && !EndsName(comp[k])
      invariant forall k :: i0 <= k < i ==> !EndsName(p[k])
    {
      var c := p[i];
      assert c == p[..inLen][i];
      i := i + 1;
      // A separator never gets here, so a backslash need not be turned.
      comp[ci] := c;
      ci := ci + 1;
    }
    comp[ci] := 0;
  }

  /** Characters of the component, as far as the output has room. */
  method PutName(out: array<byte>, oi0: nat, comp: array<byte>, ghost ci: nat, outCap: nat) returns (oi: nat)
    requires out != comp && oi0 < out.Length && outCap <= out.Length && ci < comp.Length
    requires comp[ci] == 0 && forall k :: 0 <= k < ci ==> comp[k] != 0
    modifies out
    ensures oi < out.Length && (oi0 + 1 >= outCap ==> oi == oi0)
    ensures out[..oi] == Fill(old(out[..oi0]), comp[..ci], outCap)
  {
    oi := oi0;
    var k := 0;
    while comp[k] != 0 && oi + 1 < outCap
      invariant 0 <= k <= ci && oi == oi0 + k && oi < out.Length && (k > 0 ==> oi < outCap)
      invariant forall j :: 0 <= j < oi0 ==> out[j] == old(out[j])
      invariant forall j :: 0 <= j < k ==> out[oi0 + j] == comp[j]
      decreases ci - k
    {
      out[oi] := comp[k];
      oi := oi + 1;
      k := k + 1;
    }
    assert out[..oi] == old(out[..oi0]) + comp[..k];
    assert k == ci ==> comp[..k] == comp[..ci];
    assert k < ci ==> comp[..k] == comp[..ci][..k];
  }

  /** A slash if one is due, then the component. */
  method AppendName(out: array<byte>, oi0: nat, comp: array<byte>, ghost ci: nat, outCap: nat) returns (oi: nat)
    requires out != comp && 0 < oi0 < out.Length && outCap <= out.Length && ci < comp.Length
    requires comp[ci] == 0 && forall k :: 0 <= k < ci ==> comp[k] != 0
    modifies out
    ensures oi0 <= oi < out.Length && out[..oi] == Add(old(out[..oi0]), comp[..ci], outCap)
  {
    ghost var o := out[..oi0];
    oi := oi0;
    assert o[|o| - 1] == out[oi0 - 1];
    if oi > 1 && out[oi - 1] != SLASH && oi + 1 < outCap {
      out[oi] := SLASH;
      oi := oi + 1;
      assert out[..oi] == Fill(o, [SLASH], outCap);
    }
    oi := PutName(out, oi, comp, ci, outCap);
  }

  /** Back to before the last name. */
  method DropBack(out: array<byte>, oi0: nat) returns (oi: nat)
    requires 0 < oi0 <= out.Length
    ensures 0 < oi <= oi0 && out[..oi] == Pop(out[..oi0])
  {
    oi := oi0;
    ghost var o := out[..oi0];
    if oi > 1 {
      assert o[|o| - 1] == out[oi - 1];
      if out[oi - 1] == SLASH {
        oi := oi - 1;
        assert out[..oi] == o[..|o| - 1];
      }
      while oi > 1 && out[oi - 1] != SLASH
        invariant 0 < oi <= oi0 && DropName(out[..oi]) == Pop(o)
      {
        assert out[..oi][..oi - 1] == out[..oi - 1] && out[..oi][oi - 1] == out[oi - 1];
        oi := oi - 1;
      }
      assert out[..oi][oi - 1] == out[oi - 1];
    }
  }

  // The rest of a component too long for its buffer.
  method SkipRest(p: array<byte>, i0: nat, inLen: nat) returns (i: nat)
    requires i0 <= inLen <= p.Length
    ensures i0 <= i <= inLen && (forall k :: i0 <= k < i ==> !IsSep(p[k])) && (i < inLen ==> IsSep(p[i]))
  {
    i := i0;
    while i < inLen && !IsSep(p[i])
      invariant i0 <= i <= inLen && forall k :: i0 <= k < i ==> !IsSep(p[k])
    {
      i := i + 1;
    }
  }

  /** One turn of the main loop, from the start of a component. */
  method OneName(p: array<byte>, i0: nat, inLen: nat, comp: array<byte>, out: array<byte>, oi0: nat, outCap: nat)
    returns (i: nat, oi: nat)
    requires i0 < inLen <= p.Length && !IsSep(p[i0]) && 0 !in p[..inLen]
    requires comp.Length == NAME_CAP && out.Length == OUT_CAP && outCap <= OUT_CAP && p != comp
      && out != comp && out != p
    requires 0 < oi0 < OUT_CAP
    modifies comp, out
    ensures i0 < i <= inLen && 0 < oi < OUT_CAP
    ensures Text(old(out[..oi0]), Components(p[..inLen][i0..]), outCap)
      == Text(out[..oi], Components(p[..inLen][i..]), outCap)
  {
    hide Components, Text, Add, Pop, Cut, NameEnd;
    ghost var s, o := p[..inLen], out[..oi0];
    var ci;
    i, ci := ReadName(p, i0, inLen, comp);
    ghost var e, c := NameEnd(s, i0), comp[..ci];
    NameSpan(s, i0, i, ci);
    SliceOfSlice(p[..], 0, inLen, i0, i);
    assert p[..][0..inLen] == s && p[..][i0..i] == p[i0..i];
    assert c == s[i0..i];
    assert c == Cut(s[i0..e]);
    IsDots(c);
    TakeName(s, i0, e);
    TextMore(o, s[i0..e], Components(s[e..]), outCap);
    if ci == 1 && comp[0] == DOT {
      return i, oi0;
    }
    if ci == 2 && comp[0] == DOT && comp[1] == DOT {
      oi := DropBack(out, oi0);
      return;
    }
    oi := AppendName(out, oi0, comp, ci, outCap);
    i := SkipRest(p, i, inLen);
    NameStops(s, i0, i);
  }

  lemma IsDots(c: seq<byte>)
    ensures c == DOT_KEY <==> |c| == 1 && c[0] == DOT
    ensures c == DOTDOT_KEY <==> |c| == 2 && c[0] == DOT && c[1] == DOT
  {
  }

  // What was read of the component that starts at i0.
  lemma NameSpan(s: seq<byte>, i0: nat, i: nat, ci: nat)
    requires i0 < i == i0 + ci <= |s| && ci < NAME_CAP && 0 !in s && forall k :: i0 <= k < i ==> !EndsName(s[k])
    requires ci + 1 < NAME_CAP ==> i == |s| || IsSep(s[i])
    ensures i0 < NameEnd(s, i0) && Cut(s[i0..NameEnd(s, i0)]) == s[i0..i]
    ensures ci + 1 < NAME_CAP ==> NameEnd(s, i0) == i
  {
    if ci + 1 < NAME_CAP {
      NameEndAt(s, i0, i);
    } else {
      assert NameEnd(s, i0) >= i;
      assert s[i0..NameEnd(s, i0)][..ci] == s[i0..i];
    }
  }

  lemma NameStops(s: seq<byte>, i0: nat, i: nat)
    requires i0 <= i <= |s| && 0 !in s && (forall k :: i0 <= k < i ==> !IsSep(s[k])) && (i < |s| ==> IsSep(s[i]))
    ensures NameEnd(s, i0) == i
  {
    assert forall k :: i0 <= k < i ==> s[k] in s && !EndsName(s[k]);
    NameEndAt(s, i0, i);
  }

  /** The length of the text, cut if the buffer has no NUL. */
  method InLength(p: array<byte>) returns (n: nat)
    requires p.Length > 0
    modifies p
    ensures n < p.Length && p[..n] == InText(old(p[..]))
  {
    n := 0;
    while n < p.Length && p[n] != 0
      invariant n <= p.Length && forall k :: 0 <= k < n ==> p[k] != 0
    {
      n := n + 1;
    }
    ghost var s := p[..];
    CutNulAt(s, n);
    if n == p.Length {
      p[n - 1] := 0;
      n := n - 1;
      assert p[..n] == s[..n];
    }
  }

  lemma {:induction false} CutNulAt(s: seq<byte>, n: nat)
    requires n <= |s| && (forall k :: 0 <= k < n ==> s[k] != 0) && (n < |s| ==> s[n] == 0)
    ensures CutNul(s) == s[..n]
  {
    if n > 0 {
      CutNulAt(s[1..], n - 1);
      assert [s[0]] + s[1..][..n - 1] == s[..n];
    }
  }

  /** The main loop, over a text of length inLen. */
  method Build(p: array<byte>, inLen: nat, out: array<byte>, outCap: nat) returns (oi: nat)
    requires inLen <= p.Length && 0 !in p[..inLen] && out.Length == OUT_CAP && outCap <= OUT_CAP && out != p
    modifies out
    ensures 0 < oi < OUT_CAP && out[..oi] == Text([SLASH], Components(p[..inLen]), outCap)
  {
    hide Components, Text;
    ghost var s := p[..inLen];
    var comp := new byte[NAME_CAP];
    out[0] := SLASH;
    oi := 1;
    var i := 0;
    assert s[0..] == s && out[..1] == [SLASH];
    while i < inLen
      invariant i <= inLen && 0 < oi < OUT_CAP && p[..inLen] == s
      invariant Text(out[..oi], Components(s[i..]), outCap) == Text([SLASH], Components(s), outCap)
      decreases inLen - i
    {
      if IsSep(p[i]) {
        SkipSep(s, i);
        i := i + 1;
      } else {
        i, oi := OneName(p, i, inLen, comp, out, oi, outCap);
      }
    }
    TextDone(s, i, out[..oi], outCap);
  }

  /** `path_normalize_abs`: the buffer is the array, its capacity the array's length. */
  method NormalizeAbs(p: array<byte>)
    modifies p
    ensures p.Length == 1 ==> p[0] == 0
    ensures p.Length >= 2 ==> Holds(p[..], NormAbs(InText(old(p[..])), p.Length))
  {
    hide Components, Text, InText;
    if p.Length == 0 {
      return;
    }
    var inLen := InLength(p);
    ghost var s := p[..inLen];
    var out := new byte[OUT_CAP];
    var oi := Build(p, inLen, out, OutCap(p.Length));
    ghost var o := out[..oi];
    assert o[|o| - 1] == out[oi - 1];
    if oi > 1 && out[oi - 1] == SLASH {
      oi := oi - 1;
    }
    assert out[..oi] == TrimRoot(o);
    var n := if oi >= p.Length then p.Length - 1 else oi;
    ghost var t := out[..oi];
    for k := 0 to n
      invariant out[..oi] == t && forall j :: 0 <= j < k ==> p[j] == t[j]
    {
      p[k] := out[k];
    }
    p[n] := 0;
    assert p[..n] == t[..n] && p[..][..n] == p[..n];
    assert p.Length >= 2 ==> n == oi && NormAbs(s, p.Length) == t;
  }

  lemma TextDone(s: seq<byte>, i: nat, o: seq<byte>, cap: nat)
    requires i == |s|
    ensures Text(o, Components(s[i..]), cap) == o
  {
    assert s[i..] == [];
  }
}
