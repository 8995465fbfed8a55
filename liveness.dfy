/** Liveness analysis (driver.cpp updateUseSet, findGenSet, findKillSet,
 *  functionalLiveness): a backward walk over one function's nodes that keeps
 *  an ordered live list, merging the branches of if/else at their markers. */
module Liveness {
  import opened Text
  import opened Records
  import opened Functions
  import opened Symbols
  import opened Lowering

  /** No name occurs twice. */
  predicate NoDup(s: seq<string>) {
    forall i, j :: 0 <= i < j < |s| ==> s[i] != s[j]
  }

  /** The names occurring in s. */
  function Elems(s: seq<string>): set<string> {
    set x | x in s
  }

  /** Index of the first occurrence of x, or |s| when there is none. */
  function IndexOf(s: seq<string>, x: string): (k: nat)
    ensures k <= |s| && (k < |s| ==> s[k] == x)
    ensures forall j :: 0 <= j < k ==> s[j] != x
  {
    if s == [] then 0 else if s[0] == x then 0 else 1 + IndexOf(s[1..], x)
  }

  /** The first occurrence of x is found where it is. */
  lemma IndexOfAt(s: seq<string>, x: string, k: nat)
    requires k < |s| && s[k] == x && forall j :: 0 <= j < k ==> s[j] != x
    ensures IndexOf(s, x) == k
  {
  }

  /** The first occurrence of x removed (one erase in the source's loops). */
  function RemoveFirst(s: seq<string>, x: string): (r: seq<string>)
    ensures x !in s ==> r == s
    ensures x in s ==> |r| == |s| - 1
  {
    var k := IndexOf(s, x);
    if k < |s| then s[..k] + s[k + 1..] else s
  }

  /** Removing the first y keeps every other name, and adds none. */
  lemma RemoveFirstElems(s: seq<string>, y: string)
    ensures forall x :: x in RemoveFirst(s, y) ==> x in s
    ensures forall x :: x != y ==> (x in RemoveFirst(s, y) <==> x in s)
  {
    var k := IndexOf(s, y);
    if k < |s| {
      assert s == s[..k] + [s[k]] + s[k + 1..];
    }
  }

  lemma RemoveFirstAt(s: seq<string>, x: string, k: nat)
    requires k == IndexOf(s, x) && k < |s|
    ensures s[k] == x && RemoveFirst(s, x) == s[..k] + s[k + 1..]
  {
  }

  /** s with every member of xs dropped, the rest in order. */
  function Without(s: seq<string>, xs: set<string>): (r: seq<string>)
    ensures forall y :: y in r <==> y in s && y !in xs
    ensures |r| <= |s|
  {
    if s == [] then []
    else (if s[0] in xs then [] else [s[0]]) + Without(s[1..], xs)
  }

  lemma {:induction false} WithoutAppend(a: seq<string>, b: seq<string>, xs: set<string>)
    ensures Without(a + b, xs) == Without(a, xs) + Without(b, xs)
  {
    if a != [] {
      assert (a + b)[1..] == a[1..] + b;
      WithoutAppend(a[1..], b, xs);
    } else {
      assert a + b == b;
    }
  }

  lemma {:induction false} WithoutWithout(s: seq<string>, xs: set<string>, ys: set<string>)
    ensures Without(Without(s, xs), ys) == Without(s, xs + ys)
  {
    if s != [] {
      WithoutWithout(s[1..], xs, ys);
      WithoutAppend(if s[0] in xs then [] else [s[0]], Without(s[1..], xs), ys);
    }
  }

  lemma {:induction false} WithoutNoDup(s: seq<string>, xs: set<string>)
    requires NoDup(s)
    ensures NoDup(Without(s, xs))
  {
    if s != [] {
      WithoutNoDup(s[1..], xs);
    }
  }

  /** Removing from a list whose head is another name keeps the head. */
  lemma RemoveFirstCons(s: seq<string>, x: string)
    requires s != []
    ensures s[0] == x ==> RemoveFirst(s, x) == s[1..]
    ensures s[0] != x ==> RemoveFirst(s, x) == [s[0]] + RemoveFirst(s[1..], x)
  {
    if s[0] != x {
      var k := IndexOf(s[1..], x);
      assert IndexOf(s, x) == k + 1;
      if k < |s| - 1 {
        assert s[..k + 1] == [s[0]] + s[1..][..k];
        assert s[k + 2..] == s[1..][k + 1..];
      }
    }
  }

  /** In a list without duplicates, removing the first occurrence removes
   *  every occurrence. */
  lemma {:induction false} RemoveFirstNoDup(s: seq<string>, x: string)
    requires NoDup(s)
    ensures RemoveFirst(s, x) == Without(s, {x})
  {
    if s != [] {
      RemoveFirstCons(s, x);
      if s[0] == x {
        WithoutNone(s[1..], {x});
      } else {
        RemoveFirstNoDup(s[1..], x);
      }
    }
  }

  /** Dropping names that do not occur changes nothing. */
  lemma {:induction false} WithoutNone(s: seq<string>, xs: set<string>)
    requires forall y :: y in s ==> y !in xs
    ensures Without(s, xs) == s
  {
    if s != [] {
      WithoutNone(s[1..], xs);
    }
  }

  /** The kill loop of updateUseSet: each kill member's first occurrence
   *  is erased, in the kill set's order. */
  function KillAll(live: seq<string>, kill: seq<string>): seq<string>
    decreases |kill|
  {
    if kill == [] then live else KillAll(RemoveFirst(live, kill[0]), kill[1..])
  }

  /** The gen loop of updateUseSet: each gen member is moved to the back,
   *  or appended when absent. */
  function GenAll(live: seq<string>, gen: seq<string>): seq<string>
    decreases |gen|
  {
    if gen == [] then live else GenAll(RemoveFirst(live, gen[0]) + [gen[0]], gen[1..])
  }

  /** updateUseSet(genSet, killSet, liveSet): kill first, then gen. */
  function UseSetUpdate(gen: seq<string>, kill: seq<string>, live: seq<string>): seq<string> {
    GenAll(KillAll(live, kill), gen)
  }

  lemma ElemsCons(x: string, s: seq<string>)
    ensures Elems([x] + s) == {x} + Elems(s)
  {
  }

  /** On a list without duplicates the kill loop drops exactly the kill set. */
  lemma {:induction false} KillAllSpec(live: seq<string>, kill: seq<string>)
    requires NoDup(live)
    ensures KillAll(live, kill) == Without(live, Elems(kill))
    decreases |kill|
  {
    if kill == [] {
      assert Elems(kill) == {};
      WithoutNone(live, {});
    } else {
      RemoveFirstNoDup(live, kill[0]);
      WithoutNoDup(live, {kill[0]});
      KillAllSpec(RemoveFirst(live, kill[0]), kill[1..]);
      WithoutWithout(live, {kill[0]}, Elems(kill[1..]));
      assert kill == [kill[0]] + kill[1..];
      ElemsCons(kill[0], kill[1..]);
    }
  }

  /** Moving a name to the back keeps a list free of duplicates. */
  lemma MoveToBackNoDup(s: seq<string>, x: string)
    requires NoDup(s)
    ensures NoDup(RemoveFirst(s, x) + [x])
  {
    RemoveFirstNoDup(s, x);
    WithoutNoDup(s, {x});
  }

  /** The gen loop keeps a list free of duplicates. */
  lemma {:induction false} GenAllNoDup(live: seq<string>, gen: seq<string>)
    requires NoDup(live)
    ensures NoDup(GenAll(live, gen))
    decreases |gen|
  {
    if gen != [] {
      MoveToBackNoDup(live, gen[0]);
      GenAllNoDup(RemoveFirst(live, gen[0]) + [gen[0]], gen[1..]);
    }
  }

  /** On a list without duplicates the gen loop keeps the untouched names in
   *  their order and puts the gen names after them. */
  lemma {:induction false} GenAllSpec(live: seq<string>, gen: seq<string>)
    requires NoDup(live)
    ensures GenAll(live, gen) == Without(live, Elems(gen)) + GenAll([], gen)
    decreases |gen|
  {
    if gen == [] {
      assert Elems(gen) == {};
      WithoutNone(live, {});
    } else {
      var g := gen[0];
      var rest := gen[1..];
      var w := Without(live, {g});
      var er := Elems(rest);
      RemoveFirstNoDup(live, g);
      MoveToBackNoDup(live, g);
      assert Elems(gen) == {g} + er by {
        assert gen == [g] + rest;
        ElemsCons(g, rest);
      }
      GenAllSpec(w + [g], rest);
      GenAllSpec([g], rest);
      WithoutAppend(w, [g], er);
      WithoutWithout(live, {g}, er);
      calc {
        GenAll(live, gen);
        GenAll(w + [g], rest);
        Without(w + [g], er) + GenAll([], rest);
        (Without(w, er) + Without([g], er)) + GenAll([], rest);
        { assert Without(w, er) == Without(live, {g} + er); }
        (Without(live, {g} + er) + Without([g], er)) + GenAll([], rest);
        { SeqAssoc(Without(live, {g} + er), Without([g], er), GenAll([], rest)); }
        Without(live, {g} + er) + (Without([g], er) + GenAll([], rest));
        Without(live, {g} + er) + GenAll([g], rest);
        { assert RemoveFirst([], g) + [g] == [g]; }
        Without(live, Elems(gen)) + GenAll([], gen);
      }
    }
  }

  lemma SeqAssoc(a: seq<string>, b: seq<string>, c: seq<string>)
    ensures (a + b) + c == a + (b + c)
  {
  }

  /** Whatever the list, the gen loop keeps its names and adds the gen names. */
  lemma {:induction false} GenAllElems(live: seq<string>, gen: seq<string>)
    ensures forall x :: x in GenAll(live, gen) <==> x in live || x in gen
    decreases |gen|
  {
    if gen != [] {
      var l1 := RemoveFirst(live, gen[0]) + [gen[0]];
      GenAllElems(l1, gen[1..]);
      RemoveFirstElems(live, gen[0]);
    }
  }

  /** The use-set update is the liveness equation in an ordered list: a name
   *  is live before the node iff the node generates it, or it is live after
   *  the node and not killed; the untouched names keep their order and the
   *  generated ones go to the back, without duplicates. */
  lemma UseSetUpdateSpec(gen: seq<string>, kill: seq<string>, live: seq<string>)
    requires NoDup(live)
    ensures UseSetUpdate(gen, kill, live) == Without(live, Elems(kill) + Elems(gen)) + GenAll([], gen)
    ensures NoDup(UseSetUpdate(gen, kill, live))
    ensures forall x :: x in UseSetUpdate(gen, kill, live) <==> x in gen || (x in live && x !in kill)
  {
    KillAllSpec(live, kill);
    WithoutNoDup(live, Elems(kill));
    GenAllSpec(KillAll(live, kill), gen);
    GenAllNoDup(KillAll(live, kill), gen);
    WithoutWithout(live, Elems(kill), Elems(gen));
    GenAllElems(KillAll(live, kill), gen);
  }

  /** The search loop of updateUseSet: the index of the first occurrence
   *  of x in the live list, or its length. */
  method Find(live: seq<string>, x: string) returns (i: nat)
    ensures i == IndexOf(live, x)
  {
    i := 0;
    while i < |live| && live[i] != x
      invariant 0 <= i <= |live|
      invariant forall j :: 0 <= j < i ==> live[j] != x
    {
      i := i + 1;
    }
    if i < |live| {
      IndexOfAt(live, x, i);
    }
  }

  /** The kill loop of updateUseSet: for each kill member, search the live
   *  list and erase the first match. */
  method KillLoop(killSet: seq<string>, liveSet: seq<string>) returns (live: seq<string>)
    ensures live == KillAll(liveSet, killSet)
  {
    live := liveSet;
    var k := 0;
    while k < |killSet|
      invariant 0 <= k <= |killSet|
      invariant KillAll(liveSet, killSet) == KillAll(live, killSet[k..])
    {
      assert killSet[k..][1..] == killSet[k + 1..];
      var i := Find(live, killSet[k]);
      if i < |live| {
        live := live[..i] + live[i + 1..];
      }
      k := k + 1;
    }
    assert killSet[k..] == [];
  }

  /** One round of the gen loop: the member found at i (or missed) moves
   *  to the back. */
  lemma GenStep(live: seq<string>, gen: seq<string>, g: nat, i: nat)
    requires g < |gen| && i == IndexOf(live, gen[g])
    ensures GenAll(live, gen[g..]) ==
            GenAll(if i < |live| then live[..i] + live[i + 1..] + [live[i]] else live + [gen[g]], gen[g + 1..])
  {
    var x := gen[g];
    var rest := gen[g..];
    assert rest != [] && rest[0] == x && rest[1..] == gen[g + 1..];
    assert GenAll(live, rest) == GenAll(RemoveFirst(live, x) + [x], rest[1..]);
    if i < |live| {
      RemoveFirstAt(live, x, i);
    } else {
      assert RemoveFirst(live, x) == live;
    }
  }

  /** The gen loop of updateUseSet: for each gen member, search the live
   *  list; a match is erased and pushed back, a miss is pushed back. */
  method GenLoop(genSet: seq<string>, liveSet: seq<string>) returns (live: seq<string>)
    ensures live == GenAll(liveSet, genSet)
  {
    live := liveSet;
    var g := 0;
    while g < |genSet|
      invariant 0 <= g <= |genSet|
      invariant GenAll(liveSet, genSet) == GenAll(live, genSet[g..])
    {
      var i := Find(live, genSet[g]);
      GenStep(live, genSet, g, i);
      if i < |live| {
        var temp := live[i];
        live := live[..i] + live[i + 1..];
        live := live + [temp];
      } else {
        live := live + [genSet[g]];
      }
      g := g + 1;
    }
    assert genSet[g..] == [];
  }

  /** updateUseSet(genSet, killSet, liveSet): the kill loop, then the gen loop. */
  method UpdateUseSet(genSet: seq<string>, killSet: seq<string>, liveSet: seq<string>) returns (live: seq<string>)
    ensures live == UseSetUpdate(genSet, killSet, liveSet)
  {
    live := KillLoop(killSet, liveSet);
    live := GenLoop(genSet, live);
  }

  /** Without assuming distinct names, the update never loses a name that
   *  stays live and never invents one: the live list over-approximates the
   *  liveness equation. */
  lemma {:induction false} UseSetUpdateSound(gen: seq<string>, kill: seq<string>, live: seq<string>)
    ensures forall x :: x in gen || (x in live && x !in kill) ==> x in UseSetUpdate(gen, kill, live)
    ensures forall x :: x in UseSetUpdate(gen, kill, live) ==> x in gen || x in live
  {
    KillAllSound(live, kill);
    GenAllElems(KillAll(live, kill), gen);
  }

  lemma {:induction false} KillAllSound(live: seq<string>, kill: seq<string>)
    ensures forall x :: x in live && x !in kill ==> x in KillAll(live, kill)
    ensures forall x :: x in KillAll(live, kill) ==> x in live
    decreases |kill|
  {
    if kill != [] {
      var r := RemoveFirst(live, kill[0]);
      KillAllSound(r, kill[1..]);
      RemoveFirstElems(live, kill[0]);
      assert kill == [kill[0]] + kill[1..];
    }
  }

  /** A name twice in the list survives being killed once: the kill loop
   *  erases one occurrence only. */
  lemma KillLeavesDuplicate(x: string)
    ensures UseSetUpdate([], [x], [x, x]) == [x]
  {
    IndexOfAt([x, x], x, 0);
    assert RemoveFirst([x, x], x) == [x];
    assert [x][1..] == [];
    assert KillAll([x, x], [x]) == KillAll([x], []);
  }

  // ---------------------------------------------------------------------
  // findGenSet / findKillSet

  /** What the gen and kill sets of one function's nodes are computed
   *  against: the symbol table, the function list and the function's name. */
  datatype LiveCtx = LiveCtx(table: SymbolTable, fs: seq<FuncRecord>, fname: string)

  /** An operand the liveness pass tracks: not a literal, not a global, not
   *  a parameter of the function. */
  predicate Tracked(c: LiveCtx, x: string) {
    !IsLiteral(x) && !IsGlobalVariable(c.table, x) && !IsFunctionParameter(c.fs, c.fname, x)
  }

  /** Opcodes the driver treats as arithmetic: they contain ADD, SUB, MUL or DIV. */
  predicate IsArith(op: string) {
    Contains(op, "ADD") || Contains(op, "SUB") || Contains(op, "MUL") || Contains(op, "DIV")
  }

  predicate IsStore(op: string) { !IsArith(op) && Contains(op, "STORE") }
  predicate IsWrite(op: string) { !IsArith(op) && !Contains(op, "STORE") && Contains(op, "WRITE") }
  predicate IsPush(op: string) {
    !IsArith(op) && !Contains(op, "STORE") && !Contains(op, "WRITE") && Contains(op, "PUSH")
  }
  predicate IsReturn(op: string) {
    !IsArith(op) && !Contains(op, "STORE") && !Contains(op, "WRITE") && !Contains(op, "PUSH") && Contains(op, "RETURN")
  }

  /** The return values recorded for the function (none when it is unknown). */
  function RetVals(c: LiveCtx): seq<string> {
    FindFuncOr(c.fs, c.fname, NewFunction("")).retVals
  }

  /** The tracked members of xs, in order. */
  function KeepTracked(c: LiveCtx, xs: seq<string>): (r: seq<string>)
    ensures forall x :: x in r <==> x in xs && Tracked(c, x)
    ensures |r| <= |xs|
  {
    if xs == [] then [] else (if Tracked(c, xs[0]) then [xs[0]] else []) + KeepTracked(c, xs[1..])
  }

  /** findGenSet(n, f, r): the names node n reads, with the return counter r
   *  it leaves; None when a return node's counter is outside the function's
   *  return values, which the source indexes out of range. */
  function GenSet(c: LiveCtx, n: IRNode, r: int): (g: Option<(seq<string>, int)>)
    ensures g.None? <==> IsReturn(n.opCode) && !(0 <= r < |RetVals(c)|)
    ensures g.Some? ==> g.value.1 == if IsReturn(n.opCode) then r - 1 else r
    ensures g.Some? ==> forall x :: x in g.value.0 ==> !IsGlobalVariable(c.table, x) && !IsFunctionParameter(c.fs, c.fname, x)
    ensures g.Some? ==> forall x :: x in g.value.0 && IsLiteral(x) ==> IsPush(n.opCode)
    ensures g.Some? && IsArith(n.opCode) ==> forall x :: x in g.value.0 <==> (x == n.op1 || x == n.op2) && Tracked(c, x)
    ensures g.Some? && IsStore(n.opCode) ==> forall x :: x in g.value.0 <==> x == n.op1 && Tracked(c, x)
    ensures g.Some? && IsWrite(n.opCode) ==> forall x :: x in g.value.0 <==> x == n.result && Tracked(c, x)
    ensures g.Some? && IsPush(n.opCode) ==>
              g.value.0 == if n.result != "" && !IsFunctionParameter(c.fs, c.fname, n.result) &&
                              !IsGlobalVariable(c.table, n.result) then [n.result] else []
    ensures g.Some? && IsReturn(n.opCode) ==>
              forall x :: x in g.value.0 <==> x == RetVals(c)[r] && x != "" && Tracked(c, x)
    ensures (g.Some? && !IsArith(n.opCode) && !IsStore(n.opCode) && !IsWrite(n.opCode) && !IsPush(n.opCode) &&
             !IsReturn(n.opCode)) ==> g.value.0 == []
  {
    if IsArith(n.opCode) then Some((KeepTracked(c, [n.op1, n.op2]), r))
    else if Contains(n.opCode, "STORE") then Some((KeepTracked(c, [n.op1]), r))
    else if Contains(n.opCode, "WRITE") then Some((KeepTracked(c, [n.result]), r))
    else if Contains(n.opCode, "PUSH") then
      Some((if n.result != "" && !IsFunctionParameter(c.fs, c.fname, n.result) && !IsGlobalVariable(c.table, n.result)
            then [n.result] else [], r))
    else if Contains(n.opCode, "RETURN") then
      var rv := RetVals(c);
      if 0 <= r < |rv| then
        Some((if rv[r] != "" then KeepTracked(c, [rv[r]]) else [], r - 1))
      else None
    else Some(([], r))
  }

  /** findKillSet(n): the name node n defines. */
  function KillSet(n: IRNode): (k: seq<string>)
    ensures |k| <= 1
    ensures k != [] <==> Contains(n.opCode, "STORE") || Contains(n.opCode, "READ") || IsArith(n.opCode) || Contains(n.opCode, "POP")
    ensures k != [] ==> k == [n.result]
  {
    if Contains(n.opCode, "STORE") then [n.result]
    else if Contains(n.opCode, "READ") then [n.result]
    else if IsArith(n.opCode) then [n.result]
    else if Contains(n.opCode, "POP") then [n.result]
    else []
  }

  /** A node made by expression lowering defines its temporary and reads
   *  exactly its tracked operands. */
  lemma LoweredNode(c: LiveCtx, n: IRNode, ty: LittleType, r: int)
    requires ArithOpFor(n.opCode, ty)
    ensures KillSet(n) == [n.result]
    ensures GenSet(c, n, r).Some? && GenSet(c, n, r).value.1 == r
    ensures forall x :: x in GenSet(c, n, r).value.0 <==> (x == n.op1 || x == n.op2) && Tracked(c, x)
  {
    var sfx := TypeSuffix(ty);
    if n.opCode == "ADD" + sfx {
      ContainsOwnPrefix("ADD", sfx);
    } else if n.opCode == "SUB" + sfx {
      ContainsOwnPrefix("SUB", sfx);
    } else if n.opCode == "MULT" + sfx {
      assert "MULT" + sfx == "MUL" + ("T" + sfx);
      ContainsOwnPrefix("MUL", "T" + sfx);
    } else {
      ContainsOwnPrefix("DIV", sfx);
    }
  }

  // ---------------------------------------------------------------------
  // functionalLiveness: the backward walk

  function Reverse<T>(s: seq<T>): (r: seq<T>)
    ensures |r| == |s| && forall i :: 0 <= i < |s| ==> r[i] == s[|s| - 1 - i]
  {
    if s == [] then [] else Reverse(s[1..]) + [s[0]]
  }

  /** How an else marker records itself on elseStack. The source pushes
   *  true on top of the false its if-end pushed, so one entry per if/else
   *  is never popped; marking the top records the same fact and keeps the
   *  stack in step with the nesting. */
  datatype ElseRule = PushTrue | MarkTop

  /** The walk's variables: the live list, liveVecStack and elseStack (tops
   *  at the end), the snapshots pushed so far (liveVec) and returnNumber. */
  datatype Walk = Walk(live: seq<string>, saved: seq<seq<string>>, hasElse: seq<bool>, snaps: seq<seq<string>>, ret: int)

  /** The merge at a marker, the walk going backwards: an if-end saves the
   *  live list after the statement; an else swaps the then-branch's live
   *  list for the saved one and saves it in turn; an if-start appends the
   *  saved then-branch list when there was an else, and drops the saved
   *  entry. None when a stack that is read or popped is empty. */
  function Merge(w: Walk, m: Marker, rule: ElseRule): (r: Option<Walk>)
    ensures r.Some? ==> r.value.snaps == w.snaps && r.value.ret == w.ret
    ensures m == NoMarker ==> r == Some(w)
    ensures m == EndsIf ==> r.Some? && r.value.live == w.live && r.value.saved == w.saved + [w.live]
  {
    var ns := |w.saved|;
    var nh := |w.hasElse|;
    match m
    case NoMarker => Some(w)
    case EndsIf => Some(w.(saved := w.saved + [w.live], hasElse := w.hasElse + [false]))
    case StartsIf =>
      if nh == 0 || ns == 0 then None
      else if w.hasElse[nh - 1] then
        if ns < 2 then None
        else Some(w.(live := w.live + w.saved[ns - 1], saved := w.saved[..ns - 2], hasElse := w.hasElse[..nh - 1]))
      else Some(w.(saved := w.saved[..ns - 1], hasElse := w.hasElse[..nh - 1]))
    case StartsElse =>
      if ns == 0 then None
      else if rule == PushTrue then
        Some(w.(live := w.saved[ns - 1], saved := w.saved + [w.live], hasElse := w.hasElse + [true]))
      else if nh == 0 then None
      else Some(w.(live := w.saved[ns - 1], saved := w.saved + [w.live], hasElse := w.hasElse[..nh - 1] + [true]))
  }

  /** One iteration of the walk over node n: the use-set update with the
   *  node's gen and kill sets, the merge at its marker, and the snapshot. */
  function Step(c: LiveCtx, w: Walk, n: IRNode, rule: ElseRule): (r: Option<Walk>)
    ensures r.Some? ==> r.value.snaps == w.snaps + [r.value.live]
  {
    match GenSet(c, n, w.ret)
    case None => None
    case Some((gen, ret)) =>
      var w1 := w.(live := UseSetUpdate(gen, KillSet(n), w.live), ret := ret);
      match Merge(w1, n.ifFlags, rule)
      case None => None
      case Some(w2) => Some(w2.(snaps := w2.snaps + [w2.live]))
  }

  /** The walk over ns, first to last. */
  function Run(c: LiveCtx, w0: Walk, ns: seq<IRNode>, rule: ElseRule): (r: Option<Walk>)
    ensures r.Some? ==> |r.value.snaps| == |w0.snaps| + |ns| && r.value.snaps[..|w0.snaps|] == w0.snaps
    decreases |ns|
  {
    if ns == [] then Some(w0)
    else
      match Run(c, w0, ns[..|ns| - 1], rule)
      case None => None
      case Some(w) => Step(c, w, ns[|ns| - 1], rule)
  }

  /** A walk one node further is the walk so far stepped over that node. */
  lemma RunExtend(c: LiveCtx, w0: Walk, ns: seq<IRNode>, i: nat, rule: ElseRule, w: Walk)
    requires i < |ns| && Run(c, w0, ns[..i], rule) == Some(w)
    ensures Run(c, w0, ns[..i + 1], rule) == Step(c, w, ns[i], rule)
  {
    assert ns[..i + 1][..i] == ns[..i];
  }

  /** A walk that gets through ns got through every prefix of it. */
  lemma {:induction false} RunPrefix(c: LiveCtx, w0: Walk, ns: seq<IRNode>, k: nat, rule: ElseRule)
    requires k <= |ns| && Run(c, w0, ns, rule).Some?
    ensures Run(c, w0, ns[..k], rule).Some?
    decreases |ns|
  {
    if k < |ns| {
      assert ns[..|ns| - 1][..k] == ns[..k];
      RunPrefix(c, w0, ns[..|ns| - 1], k, rule);
    } else {
      assert ns[..k] == ns;
    }
  }

  /** The k-th snapshot is the live list once the walk has passed ns[k]. */
  lemma {:induction false} RunSnaps(c: LiveCtx, w0: Walk, ns: seq<IRNode>, k: nat, rule: ElseRule)
    requires k < |ns| && Run(c, w0, ns, rule).Some?
    ensures Run(c, w0, ns[..k + 1], rule).Some?
    ensures Run(c, w0, ns, rule).value.snaps[|w0.snaps| + k] == Run(c, w0, ns[..k + 1], rule).value.live
    decreases |ns|
  {
    RunPrefix(c, w0, ns, k + 1, rule);
    RunLast(c, w0, ns, rule);
    if k + 1 < |ns| {
      var ns' := ns[..|ns| - 1];
      assert ns'[..k + 1] == ns[..k + 1];
      RunSnaps(c, w0, ns', k, rule);
    } else {
      assert ns[..k + 1] == ns;
    }
  }

  /** The walk over a non-empty list adds, after the walk over all but its
   *  last node, exactly the live list it ends with. */
  lemma RunLast(c: LiveCtx, w0: Walk, ns: seq<IRNode>, rule: ElseRule)
    requires |ns| > 0 && Run(c, w0, ns, rule).Some?
    ensures Run(c, w0, ns[..|ns| - 1], rule).Some?
    ensures Run(c, w0, ns, rule).value.snaps
      == Run(c, w0, ns[..|ns| - 1], rule).value.snaps + [Run(c, w0, ns, rule).value.live]
  {
  }

  /** The walk's starting point: nothing live, empty stacks, and the return
   *  counter at the function's last return value. */
  function StartWalk(c: LiveCtx): Walk {
    Walk([], [], [], [], |RetVals(c)| - 1)
  }

  /** The function a node list belongs to: its first node is the function's label. */
  function FunctionName(nodes: seq<IRNode>): string
    requires |nodes| > 0
  {
    nodes[0].result
  }

  /** functionalLiveness's liveVec: the walk over the reversed nodes, the
   *  last snapshot dropped and the final live list put in front. */
  function LiveVec(c: LiveCtx, nodes: seq<IRNode>, rule: ElseRule): (r: Option<seq<seq<string>>>)
    requires |nodes| > 0
    ensures r.Some? <==> Run(c, StartWalk(c), Reverse(nodes), rule).Some?
    ensures r.Some? ==> |r.value| == |nodes|
  {
    match Run(c, StartWalk(c), Reverse(nodes), rule)
    case None => None
    case Some(w) => Some([w.live] + w.snaps[..|nodes| - 1])
  }

  /** The live list the walk holds once it has passed node j (going
   *  backwards): what is live on entry to node j. */
  function LiveIn(c: LiveCtx, nodes: seq<IRNode>, j: nat, rule: ElseRule): Option<seq<string>>
    requires j < |nodes|
  {
    match Run(c, StartWalk(c), Reverse(nodes)[..|nodes| - j], rule)
    case None => None
    case Some(w) => Some(w.live)
  }

  /** The pairing registerAllocation uses, reading liveVec from the back
   *  while it walks the nodes from the front: node j gets what is live on
   *  entry to node j + 1 (what it leaves live), and the last node gets what
   *  is live on entry to the first. */
  lemma {:induction false} SnapshotPairing(c: LiveCtx, nodes: seq<IRNode>, rule: ElseRule)
    requires |nodes| > 0 && LiveVec(c, nodes, rule).Some?
    ensures forall j :: 0 <= j < |nodes| - 1 ==> Some(Reverse(LiveVec(c, nodes, rule).value)[j]) == LiveIn(c, nodes, j + 1, rule)
    ensures Some(Reverse(LiveVec(c, nodes, rule).value)[|nodes| - 1]) == LiveIn(c, nodes, 0, rule)
  {
    forall j | 0 <= j < |nodes| - 1
      ensures Some(Reverse(LiveVec(c, nodes, rule).value)[j]) == LiveIn(c, nodes, j + 1, rule)
    {
      PairingAt(c, nodes, rule, j);
    }
    PairingLast(c, nodes, rule);
  }

  /** SnapshotPairing for a node before the last. */
  lemma PairingAt(c: LiveCtx, nodes: seq<IRNode>, rule: ElseRule, j: nat)
    requires |nodes| > 0 && LiveVec(c, nodes, rule).Some? && j < |nodes| - 1
    ensures Some(Reverse(LiveVec(c, nodes, rule).value)[j]) == LiveIn(c, nodes, j + 1, rule)
  {
    var n, rev := |nodes|, Reverse(nodes);
    LiveVecValue(c, nodes, rule);
    var w := Run(c, StartWalk(c), rev, rule).value;
    var k := n - 2 - j;
    RunSnaps(c, StartWalk(c), rev, k, rule);
    assert n - (j + 1) == k + 1;
    LiveInValue(c, nodes, j + 1, rule);
    ReverseFrontIndex(w.live, w.snaps, n, j);
  }

  /** liveVec is the walk's final live list followed by all its snapshots
   *  but the last. */
  lemma LiveVecValue(c: LiveCtx, nodes: seq<IRNode>, rule: ElseRule)
    requires |nodes| > 0 && LiveVec(c, nodes, rule).Some?
    ensures Run(c, StartWalk(c), Reverse(nodes), rule).Some?
    ensures var w := Run(c, StartWalk(c), Reverse(nodes), rule).value;
            LiveVec(c, nodes, rule).value == [w.live] + w.snaps[..|nodes| - 1]
  {
  }

  /** What is live on entry to node j, when the walk gets that far. */
  lemma LiveInValue(c: LiveCtx, nodes: seq<IRNode>, j: nat, rule: ElseRule)
    requires j < |nodes| && Run(c, StartWalk(c), Reverse(nodes)[..|nodes| - j], rule).Some?
    ensures LiveIn(c, nodes, j, rule) == Some(Run(c, StartWalk(c), Reverse(nodes)[..|nodes| - j], rule).value.live)
  {
  }

  /** Reading [x] + s[..n - 1] from the back: index j is s[n - 2 - j]. */
  lemma ReverseFrontIndex<T>(x: T, s: seq<T>, n: nat, j: nat)
    requires j < n - 1 && n - 1 <= |s|
    ensures Reverse([x] + s[..n - 1])[j] == s[n - 2 - j]
  {
    var S := [x] + s[..n - 1];
    assert Reverse(S)[j] == S[n - 1 - j];
  }

  /** SnapshotPairing for the last node. */
  lemma PairingLast(c: LiveCtx, nodes: seq<IRNode>, rule: ElseRule)
    requires |nodes| > 0 && LiveVec(c, nodes, rule).Some?
    ensures Some(Reverse(LiveVec(c, nodes, rule).value)[|nodes| - 1]) == LiveIn(c, nodes, 0, rule)
  {
    var n := |nodes|;
    var rev := Reverse(nodes);
    var w := Run(c, StartWalk(c), rev, rule).value;
    var S := LiveVec(c, nodes, rule).value;
    assert S == [w.live] + w.snaps[..n - 1];
    assert Reverse(S)[n - 1] == S[0] == w.live;
    assert rev[..n] == rev;
  }

  /** The merge at one marker, on liveVecStack and elseStack in place, under
   *  either else rule (PushTrue is the source as written). */
  method MergeAt(w: Walk, m: Marker, rule: ElseRule) returns (r: Walk)
    requires Merge(w, m, rule).Some?
    ensures r == Merge(w, m, rule).value
  {
    var live, liveVecStack, elseStack := w.live, w.saved, w.hasElse;
    match m {
      case StartsIf =>
        if elseStack[|elseStack| - 1] {
          live := live + liveVecStack[|liveVecStack| - 1];
          liveVecStack := liveVecStack[..|liveVecStack| - 1];
        }
        liveVecStack := liveVecStack[..|liveVecStack| - 1];
        elseStack := elseStack[..|elseStack| - 1];
      case StartsElse =>
        var liveTemp := live;
        live := liveVecStack[|liveVecStack| - 1];
        liveVecStack := liveVecStack + [liveTemp];
        if rule == PushTrue {
          elseStack := elseStack + [true];
        } else {
          elseStack := elseStack[..|elseStack| - 1] + [true];
        }
      case EndsIf =>
        liveVecStack := liveVecStack + [live];
        elseStack := elseStack + [false];
      case NoMarker =>
    }
    r := w.(live := live, saved := liveVecStack, hasElse := elseStack);
  }

  /** One iteration of functionalLiveness's loop over node n. */
  method WalkStep(c: LiveCtx, w: Walk, n: IRNode, rule: ElseRule) returns (r: Walk)
    requires Step(c, w, n, rule).Some?
    ensures r == Step(c, w, n, rule).value
  {
    var g := GenSet(c, n, w.ret);
    var live := UpdateUseSet(g.value.0, KillSet(n), w.live);
    r := MergeAt(w.(live := live, ret := g.value.1), n.ifFlags, rule);
    r := r.(snaps := r.snaps + [r.live]);
  }

  /** functionalLiveness's loop: the nodes are visited last to first, each
   *  one stepping the walk; the last record is then dropped and the final
   *  live list put in front. */
  method LiveWalk(c: LiveCtx, nodes: seq<IRNode>, rule: ElseRule) returns (liveVec: seq<seq<string>>)
    requires |nodes| > 0 && LiveVec(c, nodes, rule).Some?
    ensures liveVec == LiveVec(c, nodes, rule).value
  {
    var rev := Reverse(nodes);
    var w := StartWalk(c);
    var i := 0;
    while i < |rev|
      invariant 0 <= i <= |rev|
      invariant Run(c, StartWalk(c), rev[..i], rule) == Some(w)
    {
      RunPrefix(c, StartWalk(c), rev, i + 1, rule);
      RunExtend(c, StartWalk(c), rev, i, rule, w);
      w := WalkStep(c, w, rev[i], rule);
      i := i + 1;
    }
    assert rev[..i] == rev;
    liveVec := [w.live] + w.snaps[..|nodes| - 1];
  }

  // ---------------------------------------------------------------------
  // Well-nested markers

  /** The markers of ns, in order. */
  function Markers(ns: seq<IRNode>): (ms: seq<Marker>)
    ensures |ms| == |ns| && forall i :: 0 <= i < |ns| ==> ms[i] == ns[i].ifFlags
  {
    if ns == [] then [] else Markers(ns[..|ns| - 1]) + [ns[|ns| - 1].ifFlags]
  }

  /** One marker met walking backwards, against the open if statements
   *  (innermost last; true once its else was met): an if-end opens one, an
   *  else is allowed once in the innermost open one, an if-start closes it. */
  function NestStep(open: seq<bool>, m: Marker): Option<seq<bool>> {
    var n := |open|;
    match m
    case NoMarker => Some(open)
    case EndsIf => Some(open + [false])
    case StartsElse => if n > 0 && !open[n - 1] then Some(open[..n - 1] + [true]) else None
    case StartsIf => if n > 0 then Some(open[..n - 1]) else None
  }

  /** The open if statements after the markers ms, met in this order; None
   *  when they are not nested. */
  function Nesting(ms: seq<Marker>): Option<seq<bool>>
    decreases |ms|
  {
    if ms == [] then Some([])
    else
      match Nesting(ms[..|ms| - 1])
      case None => None
      case Some(open) => NestStep(open, ms[|ms| - 1])
  }

  function CountTrue(s: seq<bool>): (c: nat)
    ensures c <= |s|
  {
    if s == [] then 0 else CountTrue(s[..|s| - 1]) + (if s[|s| - 1] then 1 else 0)
  }

  /** liveVecStack holds one entry per open if statement and one more per
   *  else met in it. */
  predicate Balanced(w: Walk) {
    |w.saved| == |w.hasElse| + CountTrue(w.hasElse)
  }

  /** With elses marking the top, a merge at a nested marker never meets
   *  an empty stack, keeps elseStack equal to the open if statements and
   *  keeps the stacks balanced. */
  lemma {:induction false} MergeFollowsNesting(w: Walk, m: Marker, open: seq<bool>)
    requires Balanced(w) && w.hasElse == open && NestStep(open, m).Some?
    ensures Merge(w, m, MarkTop).Some?
    ensures Merge(w, m, MarkTop).value.hasElse == NestStep(open, m).value
    ensures Balanced(Merge(w, m, MarkTop).value)
  {
    var n := |open|;
    if n > 0 {
      assert open == open[..n - 1] + [open[n - 1]];
      assert CountTrue(open) == CountTrue(open[..n - 1]) + (if open[n - 1] then 1 else 0);
    }
    match m
    case NoMarker =>
    case EndsIf =>
      assert (open + [false])[..n] == open;
    case StartsIf =>
    case StartsElse =>
      var o := open[..n - 1] + [true];
      assert o[..n - 1] == open[..n - 1];
  }

  /** How many nodes of ns the gen-set computation treats as returns. */
  function CountReturns(ns: seq<IRNode>): (k: nat)
    ensures k <= |ns|
  {
    if ns == [] then 0 else CountReturns(ns[..|ns| - 1]) + (if IsReturn(ns[|ns| - 1].opCode) then 1 else 0)
  }

  /** The walk with elses marking the top gets through every node list
   *  whose markers are nested and whose returns are covered by the
   *  function's return values, and its return counter counts them down. */
  lemma {:induction false} NestedRunSucceeds(c: LiveCtx, ns: seq<IRNode>)
    requires Nesting(Markers(ns)).Some?
    requires CountReturns(ns) <= |RetVals(c)|
    ensures Run(c, StartWalk(c), ns, MarkTop).Some?
    ensures Run(c, StartWalk(c), ns, MarkTop).value.hasElse == Nesting(Markers(ns)).value
    ensures Balanced(Run(c, StartWalk(c), ns, MarkTop).value)
    ensures Run(c, StartWalk(c), ns, MarkTop).value.ret == |RetVals(c)| - 1 - CountReturns(ns)
    decreases |ns|
  {
    if ns != [] {
      var init := ns[..|ns| - 1];
      var n := ns[|ns| - 1];
      assert Markers(init) == Markers(ns)[..|ns| - 1];
      NestedRunSucceeds(c, init);
      var w := Run(c, StartWalk(c), init, MarkTop).value;
      var open := Nesting(Markers(init)).value;
      var g := GenSet(c, n, w.ret);
      assert g.Some?;
      var w1 := w.(live := UseSetUpdate(g.value.0, KillSet(n), w.live), ret := g.value.1);
      MergeFollowsNesting(w1, n.ifFlags, open);
    }
  }

  /** functionalLiveness on a function whose markers are nested, read
   *  backwards, and whose returns are covered, yields one snapshot per node. */
  lemma {:induction false} NestedLiveVec(c: LiveCtx, nodes: seq<IRNode>)
    requires |nodes| > 0
    requires Nesting(Markers(Reverse(nodes))).Some?
    requires CountReturns(Reverse(nodes)) <= |RetVals(c)|
    ensures LiveVec(c, nodes, MarkTop).Some?
  {
    var rev := Reverse(nodes);
    NestedRunSucceeds(c, rev);
    assert Run(c, StartWalk(c), rev, MarkTop).Some?;
  }

  // ---------------------------------------------------------------------
  // The elseStack leak

  /** A label carrying marker m. */
  function MarkerNode(m: Marker): IRNode {
    IRNode("LABEL", "", "", "lpTmpLbl0", m)
  }

  /** A node writing v to the output. */
  function WriteNode(v: string): IRNode {
    IRNode("WRITEI", "", "", v, NoMarker)
  }

  /** A function body with an outer if whose then-branch is a whole if/else
   *  and whose else-branch writes v, in program order. */
  function LeakNodes(v: string): seq<IRNode> {
    [MarkerNode(StartsIf), MarkerNode(StartsIf), MarkerNode(StartsElse), MarkerNode(EndsIf),
     MarkerNode(StartsElse), WriteNode(v), MarkerNode(EndsIf)]
  }

  /** The same nodes in the order the walk meets them. */
  function LeakOrder(v: string): seq<IRNode> {
    [MarkerNode(EndsIf), WriteNode(v), MarkerNode(StartsElse), MarkerNode(EndsIf),
     MarkerNode(StartsElse), MarkerNode(StartsIf), MarkerNode(StartsIf)]
  }

  lemma LeakWalkOrder(v: string)
    ensures Reverse(LeakNodes(v)) == LeakOrder(v)
  {
  }

  /** "LABEL" is none of the opcodes the gen and kill sets look for. */
  lemma LabelOpcode()
    ensures !IsArith("LABEL") && !Contains("LABEL", "STORE") && !Contains("LABEL", "WRITE")
    ensures !Contains("LABEL", "PUSH") && !Contains("LABEL", "RETURN")
    ensures !Contains("LABEL", "READ") && !Contains("LABEL", "POP")
  {
    var l := "LABEL";
    MissingChar(l, "ADD", 1);
    MissingChar(l, "SUB", 0);
    MissingChar(l, "MUL", 0);
    MissingChar(l, "DIV", 0);
    MissingChar(l, "STORE", 0);
    MissingChar(l, "WRITE", 0);
    MissingChar(l, "PUSH", 0);
    MissingChar(l, "RETURN", 0);
    MissingChar(l, "READ", 0);
    MissingChar(l, "POP", 0);
  }

  /** "WRITEI" names no arithmetic. */
  lemma WriteNotArith()
    ensures !IsArith("WRITEI")
  {
    var w := "WRITEI";
    MissingChar(w, "ADD", 0);
    MissingChar(w, "SUB", 0);
    MissingChar(w, "MUL", 0);
    MissingChar(w, "DIV", 0);
  }

  /** "WRITEI" is a write and nothing else the gen and kill sets look for. */
  lemma WriteOpcode()
    ensures !IsArith("WRITEI") && !Contains("WRITEI", "STORE") && Contains("WRITEI", "WRITE")
    ensures !Contains("WRITEI", "READ") && !Contains("WRITEI", "POP")
  {
    var w := "WRITEI";
    WriteNotArith();
    MissingChar(w, "STORE", 0);
    MissingChar(w, "READ", 2);
    MissingChar(w, "POP", 0);
    ContainsOwnPrefix("WRITE", "I");
    assert "WRITE" + "I" == w;
  }

  /** A marker node only merges. */
  lemma MarkerStep(c: LiveCtx, w: Walk, m: Marker, rule: ElseRule)
    ensures Step(c, w, MarkerNode(m), rule) ==
            match Merge(w, m, rule)
            case None => None
            case Some(w2) => Some(w2.(snaps := w2.snaps + [w2.live]))
  {
    LabelOpcode();
    assert GenSet(c, MarkerNode(m), w.ret) == Some(([], w.ret));
    assert KillSet(MarkerNode(m)) == [];
    assert UseSetUpdate([], [], w.live) == w.live;
    assert w.(live := w.live, ret := w.ret) == w;
  }

  /** Writing a tracked v makes v live. */
  lemma WriteStep(c: LiveCtx, v: string, w: Walk, rule: ElseRule)
    requires Tracked(c, v) && w.live == []
    ensures Step(c, w, WriteNode(v), rule) == Some(w.(live := [v], snaps := w.snaps + [[v]]))
  {
    WriteOpcode();
    assert KeepTracked(c, [v]) == [v] + KeepTracked(c, []);
    assert KeepTracked(c, []) == [];
    assert KeepTracked(c, [v]) == [v];
    assert GenSet(c, WriteNode(v), w.ret) == Some(([v], w.ret));
    assert KillSet(WriteNode(v)) == [];
    assert UseSetUpdate([v], [], []) == GenAll([], [v]);
    assert RemoveFirst([], v) + [v] == [v];
    assert [v][1..] == [];
  }

  /** At an if-end (walking backwards) the live list is saved and a new
   *  if statement is open, with no else met yet. */
  lemma EndsIfStep(c: LiveCtx, w: Walk, rule: ElseRule)
    ensures Step(c, w, MarkerNode(EndsIf), rule) ==
            Some(w.(saved := w.saved + [w.live], hasElse := w.hasElse + [false], snaps := w.snaps + [w.live]))
  {
    MarkerStep(c, w, EndsIf, rule);
  }

  /** At an else the walk continues from the live list saved at the if-end
   *  and saves the then-branch's list; PushTrue pushes a new elseStack
   *  entry, MarkTop marks the innermost one. */
  lemma ElseStep(c: LiveCtx, w: Walk, rule: ElseRule)
    requires |w.saved| > 0 && (rule == MarkTop ==> |w.hasElse| > 0)
    ensures Step(c, w, MarkerNode(StartsElse), rule) ==
            Some(w.(live := w.saved[|w.saved| - 1], saved := w.saved + [w.live],
                    hasElse := if rule == PushTrue then w.hasElse + [true] else w.hasElse[..|w.hasElse| - 1] + [true],
                    snaps := w.snaps + [w.saved[|w.saved| - 1]]))
  {
    MarkerStep(c, w, StartsElse, rule);
  }

  /** At an if-start whose innermost elseStack entry says an else was met,
   *  the saved then-branch list joins the live list and both saved lists
   *  and the entry are popped. */
  lemma IfElseStep(c: LiveCtx, w: Walk, rule: ElseRule)
    requires |w.hasElse| > 0 && w.hasElse[|w.hasElse| - 1] && |w.saved| >= 2
    ensures Step(c, w, MarkerNode(StartsIf), rule) ==
            Some(w.(live := w.live + w.saved[|w.saved| - 1], saved := w.saved[..|w.saved| - 2],
                    hasElse := w.hasElse[..|w.hasElse| - 1], snaps := w.snaps + [w.live + w.saved[|w.saved| - 1]]))
  {
    MarkerStep(c, w, StartsIf, rule);
  }

  /** At an if-start whose innermost elseStack entry says no else was met,
   *  the live list stays and one saved list and the entry are popped. */
  lemma IfNoElseStep(c: LiveCtx, w: Walk, rule: ElseRule)
    requires |w.hasElse| > 0 && !w.hasElse[|w.hasElse| - 1] && |w.saved| >= 1
    ensures Step(c, w, MarkerNode(StartsIf), rule) ==
            Some(w.(saved := w.saved[..|w.saved| - 1], hasElse := w.hasElse[..|w.hasElse| - 1], snaps := w.snaps + [w.live]))
  {
    MarkerStep(c, w, StartsIf, rule);
  }

  /** Nesting one marker further. */
  lemma NestingSnoc(ms: seq<Marker>, m: Marker, open: seq<bool>, open': seq<bool>)
    requires Nesting(ms) == Some(open) && NestStep(open, m) == Some(open')
    ensures Nesting(ms + [m]) == Some(open')
  {
    assert (ms + [m])[..|ms|] == ms;
  }

  /** The markers of LeakNodes, in walk order, are nested. */
  lemma LeakMarkersNested()
    ensures Nesting([EndsIf, NoMarker, StartsElse, EndsIf, StartsElse, StartsIf, StartsIf]) == Some([])
  {
    var f, t, tf, tt := [false], [true], [true, false], [true, true];
    assert [] + [false] == f;
    NestingSnoc([], EndsIf, [], f);
    var m1 := [] + [EndsIf];
    NestingSnoc(m1, NoMarker, f, f);
    var m2 := m1 + [NoMarker];
    assert f[..0] + [true] == t;
    NestingSnoc(m2, StartsElse, f, t);
    var m3 := m2 + [StartsElse];
    assert t + [false] == tf;
    NestingSnoc(m3, EndsIf, t, tf);
    var m4 := m3 + [EndsIf];
    assert tf[..1] + [true] == tt;
    NestingSnoc(m4, StartsElse, tf, tt);
    var m5 := m4 + [StartsElse];
    assert tt[..1] == t;
    NestingSnoc(m5, StartsIf, tt, t);
    var m6 := m5 + [StartsIf];
    assert t[..0] == [];
    NestingSnoc(m6, StartsIf, t, []);
    assert m6 + [StartsIf] == [EndsIf, NoMarker, StartsElse, EndsIf, StartsElse, StartsIf, StartsIf];
  }

  /** LeakNodes' markers are nested: every if statement is closed. */
  lemma LeakNested(v: string)
    ensures Nesting(Markers(Reverse(LeakNodes(v)))) == Some([])
  {
    LeakWalkOrder(v);
    assert Markers(LeakOrder(v)) == [EndsIf, NoMarker, StartsElse, EndsIf, StartsElse, StartsIf, StartsIf];
    LeakMarkersNested();
  }

  /** A walk whose every step is known: ws[k + 1] is what ns[k] makes of ws[k]. */
  lemma {:induction false} RunOfSteps(c: LiveCtx, ns: seq<IRNode>, ws: seq<Walk>, rule: ElseRule)
    requires |ws| == |ns| + 1
    requires forall k :: 0 <= k < |ns| ==> Step(c, ws[k], ns[k], rule) == Some(ws[k + 1])
    ensures Run(c, ws[0], ns, rule) == Some(ws[|ns|])
    decreases |ns|
  {
    if ns != [] {
      var n := |ns|;
      var ns', ws' := ns[..n - 1], ws[..n];
      forall k | 0 <= k < |ns'|
        ensures Step(c, ws'[k], ns'[k], rule) == Some(ws'[k + 1])
      {
        assert ws'[k] == ws[k] && ws'[k + 1] == ws[k + 1] && ns'[k] == ns[k];
      }
      RunOfSteps(c, ns', ws', rule);
      assert Run(c, ws[0], ns', rule) == Some(ws[n - 1]);
    }
  }

  lemma LeakStep0(c: LiveCtx, v: string, w: Walk, rule: ElseRule)
    requires w.live == [] && w.saved == [] && w.hasElse == [] && w.snaps == []
    ensures Step(c, w, MarkerNode(EndsIf), rule) == Some(w.(saved := [[]], hasElse := [false], snaps := [[]]))
  {
    EndsIfStep(c, w, rule);
    assert w.saved + [w.live] == [[]] && w.hasElse + [false] == [false] && w.snaps + [w.live] == [[]];
  }

  lemma LeakPushStep2(c: LiveCtx, v: string, w: Walk)
    requires w.live == [v] && w.saved == [[]] && w.hasElse == [false] && w.snaps == [[], [v]]
    ensures Step(c, w, MarkerNode(StartsElse), PushTrue) == Some(w.(live := [], saved := [[], [v]], hasElse := [false, true], snaps := [[], [v], []]))
  {
    ElseStep(c, w, PushTrue);
    assert w.saved + [w.live] == [[], [v]];
    assert w.hasElse + [true] == [false, true];
    assert w.snaps + [w.saved[0]] == [[], [v], []];
  }

  lemma LeakPushStep3(c: LiveCtx, v: string, w: Walk)
    requires w.live == [] && w.saved == [[], [v]] && w.hasElse == [false, true] && w.snaps == [[], [v], []]
    ensures Step(c, w, MarkerNode(EndsIf), PushTrue) == Some(w.(live := [], saved := [[], [v], []], hasElse := [false, true, false], snaps := [[], [v], [], []]))
  {
    EndsIfStep(c, w, PushTrue);
    assert w.saved + [w.live] == [[], [v], []];
    assert w.hasElse + [false] == [false, true, false];
    assert w.snaps + [w.live] == [[], [v], [], []];
  }

  lemma LeakPushStep4(c: LiveCtx, v: string, w: Walk)
    requires w.live == [] && w.saved == [[], [v], []] && w.hasElse == [false, true, false] && w.snaps == [[], [v], [], []]
    ensures Step(c, w, MarkerNode(StartsElse), PushTrue) == Some(w.(live := [], saved := [[], [v], [], []], hasElse := [false, true, false, true], snaps := [[], [v], [], [], []]))
  {
    ElseStep(c, w, PushTrue);
    assert w.saved + [w.live] == [[], [v], [], []];
    assert w.hasElse + [true] == [false, true, false, true];
    assert w.snaps + [w.saved[2]] == [[], [v], [], [], []];
  }

  lemma LeakPushStep5(c: LiveCtx, v: string, w: Walk)
    requires w.live == [] && w.saved == [[], [v], [], []] && w.hasElse == [false, true, false, true] && w.snaps == [[], [v], [], [], []]
    ensures Step(c, w, MarkerNode(StartsIf), PushTrue) == Some(w.(live := [], saved := [[], [v]], hasElse := [false, true, false], snaps := [[], [v], [], [], [], []]))
  {
    IfElseStep(c, w, PushTrue);
    assert w.live + w.saved[3] == [];
    assert w.saved[..2] == [[], [v]];
    assert w.hasElse[..3] == [false, true, false];
    assert w.snaps + [w.live + w.saved[3]] == [[], [v], [], [], [], []];
  }

  lemma LeakPushStep6(c: LiveCtx, v: string, w: Walk)
    requires w.live == [] && w.saved == [[], [v]] && w.hasElse == [false, true, false] && w.snaps == [[], [v], [], [], [], []]
    ensures Step(c, w, MarkerNode(StartsIf), PushTrue) == Some(w.(live := [], saved := [[]], hasElse := [false, true], snaps := [[], [v], [], [], [], [], []]))
  {
    IfNoElseStep(c, w, PushTrue);
    assert w.saved[..1] == [[]];
    assert w.hasElse[..2] == [false, true];
    assert w.snaps + [w.live] == [[], [v], [], [], [], [], []];
  }

  /** The walk over LeakOrder as written: the outer if-start finds the false
   *  left over from the inner if's end on top of elseStack and drops the
   *  else-branch's live list, so v is not live on entry. */
  lemma LeakWalkPush(c: LiveCtx, v: string)
    requires Tracked(c, v)
    ensures Run(c, StartWalk(c), LeakOrder(v), PushTrue).Some?
    ensures Run(c, StartWalk(c), LeakOrder(v), PushTrue).value.live == []
  {
    var ns := LeakOrder(v);
    var w0 := StartWalk(c);
    var w1 := w0.(saved := [[]], hasElse := [false], snaps := [[]]);
    var w2 := w1.(live := [v], snaps := w1.snaps + [[v]]);
    assert w2.snaps == [[], [v]];
    var w3 := w2.(live := [], saved := [[], [v]], hasElse := [false, true], snaps := [[], [v], []]);
    var w4 := w3.(live := [], saved := [[], [v], []], hasElse := [false, true, false], snaps := [[], [v], [], []]);
    var w5 := w4.(live := [], saved := [[], [v], [], []], hasElse := [false, true, false, true], snaps := [[], [v], [], [], []]);
    var w6 := w5.(live := [], saved := [[], [v]], hasElse := [false, true, false], snaps := [[], [v], [], [], [], []]);
    var w7 := w6.(live := [], saved := [[]], hasElse := [false, true], snaps := [[], [v], [], [], [], [], []]);
    var ws := [w0, w1, w2, w3, w4, w5, w6, w7];
    forall k | 0 <= k < |ns|
      ensures Step(c, ws[k], ns[k], PushTrue) == Some(ws[k + 1])
    {
      if k == 0 {
        assert ws[k] == w0 && ns[k] == MarkerNode(EndsIf) && ws[k + 1] == w1;
        LeakStep0(c, v, w0, PushTrue);
      } else if k == 1 {
        assert ws[k] == w1 && ns[k] == WriteNode(v) && ws[k + 1] == w2;
        WriteStep(c, v, w1, PushTrue);
      } else if k == 2 {
        assert ws[k] == w2 && ns[k] == MarkerNode(StartsElse) && ws[k + 1] == w3;
        LeakPushStep2(c, v, w2);
      } else if k == 3 {
        assert ws[k] == w3 && ns[k] == MarkerNode(EndsIf) && ws[k + 1] == w4;
        LeakPushStep3(c, v, w3);
      } else if k == 4 {
        assert ws[k] == w4 && ns[k] == MarkerNode(StartsElse) && ws[k + 1] == w5;
        LeakPushStep4(c, v, w4);
      } else if k == 5 {
        assert ws[k] == w5 && ns[k] == MarkerNode(StartsIf) && ws[k + 1] == w6;
        LeakPushStep5(c, v, w5);
      } else if k == 6 {
        assert ws[k] == w6 && ns[k] == MarkerNode(StartsIf) && ws[k + 1] == w7;
        LeakPushStep6(c, v, w6);
      }
    }
    RunOfSteps(c, ns, ws, PushTrue);
  }

  lemma LeakMarkStep2(c: LiveCtx, v: string, w: Walk)
    requires w.live == [v] && w.saved == [[]] && w.hasElse == [false] && w.snaps == [[], [v]]
    ensures Step(c, w, MarkerNode(StartsElse), MarkTop) == Some(w.(live := [], saved := [[], [v]], hasElse := [true], snaps := [[], [v], []]))
  {
    ElseStep(c, w, MarkTop);
    assert w.saved + [w.live] == [[], [v]];
    assert w.hasElse[..0] + [true] == [true];
    assert w.snaps + [w.saved[0]] == [[], [v], []];
  }

  lemma LeakMarkStep3(c: LiveCtx, v: string, w: Walk)
    requires w.live == [] && w.saved == [[], [v]] && w.hasElse == [true] && w.snaps == [[], [v], []]
    ensures Step(c, w, MarkerNode(EndsIf), MarkTop) == Some(w.(live := [], saved := [[], [v], []], hasElse := [true, false], snaps := [[], [v], [], []]))
  {
    EndsIfStep(c, w, MarkTop);
    assert w.saved + [w.live] == [[], [v], []];
    assert w.hasElse + [false] == [true, false];
    assert w.snaps + [w.live] == [[], [v], [], []];
  }

  lemma LeakMarkStep4(c: LiveCtx, v: string, w: Walk)
    requires w.live == [] && w.saved == [[], [v], []] && w.hasElse == [true, false] && w.snaps == [[], [v], [], []]
    ensures Step(c, w, MarkerNode(StartsElse), MarkTop) == Some(w.(live := [], saved := [[], [v], [], []], hasElse := [true, true], snaps := [[], [v], [], [], []]))
  {
    ElseStep(c, w, MarkTop);
    assert w.saved + [w.live] == [[], [v], [], []];
    assert w.hasElse[..1] + [true] == [true, true];
    assert w.snaps + [w.saved[2]] == [[], [v], [], [], []];
  }

  lemma LeakMarkStep5(c: LiveCtx, v: string, w: Walk)
    requires w.live == [] && w.saved == [[], [v], [], []] && w.hasElse == [true, true] && w.snaps == [[], [v], [], [], []]
    ensures Step(c, w, MarkerNode(StartsIf), MarkTop) == Some(w.(live := [], saved := [[], [v]], hasElse := [true], snaps := [[], [v], [], [], [], []]))
  {
    IfElseStep(c, w, MarkTop);
    assert w.live + w.saved[3] == [];
    assert w.saved[..2] == [[], [v]];
    assert w.hasElse[..1] == [true];
    assert w.snaps + [w.live + w.saved[3]] == [[], [v], [], [], [], []];
  }

  lemma LeakMarkStep6(c: LiveCtx, v: string, w: Walk)
    requires w.live == [] && w.saved == [[], [v]] && w.hasElse == [true] && w.snaps == [[], [v], [], [], [], []]
    ensures Step(c, w, MarkerNode(StartsIf), MarkTop) == Some(w.(live := [v], saved := [], hasElse := [], snaps := [[], [v], [], [], [], [], [v]]))
  {
    IfElseStep(c, w, MarkTop);
    assert w.live + w.saved[1] == [v];
    assert w.saved[..0] == [];
    assert w.hasElse[..0] == [];
    assert w.snaps + [w.live + w.saved[1]] == [[], [v], [], [], [], [], [v]];
  }

  /** The walk over LeakOrder with the top of elseStack marked: the outer
   *  if-start merges the else-branch's live list, so v is live on entry. */
  lemma LeakWalkMark(c: LiveCtx, v: string)
    requires Tracked(c, v)
    ensures Run(c, StartWalk(c), LeakOrder(v), MarkTop).Some?
    ensures Run(c, StartWalk(c), LeakOrder(v), MarkTop).value.live == [v]
  {
    var ns := LeakOrder(v);
    var w0 := StartWalk(c);
    var w1 := w0.(saved := [[]], hasElse := [false], snaps := [[]]);
    var w2 := w1.(live := [v], snaps := w1.snaps + [[v]]);
    assert w2.snaps == [[], [v]];
    var w3 := w2.(live := [], saved := [[], [v]], hasElse := [true], snaps := [[], [v], []]);
    var w4 := w3.(live := [], saved := [[], [v], []], hasElse := [true, false], snaps := [[], [v], [], []]);
    var w5 := w4.(live := [], saved := [[], [v], [], []], hasElse := [true, true], snaps := [[], [v], [], [], []]);
    var w6 := w5.(live := [], saved := [[], [v]], hasElse := [true], snaps := [[], [v], [], [], [], []]);
    var w7 := w6.(live := [v], saved := [], hasElse := [], snaps := [[], [v], [], [], [], [], [v]]);
    var ws := [w0, w1, w2, w3, w4, w5, w6, w7];
    forall k | 0 <= k < |ns|
      ensures Step(c, ws[k], ns[k], MarkTop) == Some(ws[k + 1])
    {
      if k == 0 {
        assert ws[k] == w0 && ns[k] == MarkerNode(EndsIf) && ws[k + 1] == w1;
        LeakStep0(c, v, w0, MarkTop);
      } else if k == 1 {
        assert ws[k] == w1 && ns[k] == WriteNode(v) && ws[k + 1] == w2;
        WriteStep(c, v, w1, MarkTop);
      } else if k == 2 {
        assert ws[k] == w2 && ns[k] == MarkerNode(StartsElse) && ws[k + 1] == w3;
        LeakMarkStep2(c, v, w2);
      } else if k == 3 {
        assert ws[k] == w3 && ns[k] == MarkerNode(EndsIf) && ws[k + 1] == w4;
        LeakMarkStep3(c, v, w3);
      } else if k == 4 {
        assert ws[k] == w4 && ns[k] == MarkerNode(StartsElse) && ws[k + 1] == w5;
        LeakMarkStep4(c, v, w4);
      } else if k == 5 {
        assert ws[k] == w5 && ns[k] == MarkerNode(StartsIf) && ws[k + 1] == w6;
        LeakMarkStep5(c, v, w5);
      } else if k == 6 {
        assert ws[k] == w6 && ns[k] == MarkerNode(StartsIf) && ws[k + 1] == w7;
        LeakMarkStep6(c, v, w6);
      }
    }
    RunOfSteps(c, ns, ws, MarkTop);
  }

  /** As written: in a function whose if statements are properly nested, a
   *  variable the outer else-branch writes to the output is not live on
   *  entry to the function. */
  lemma LeakAsWritten(c: LiveCtx, v: string)
    requires Tracked(c, v)
    ensures Nesting(Markers(Reverse(LeakNodes(v)))) == Some([])
    ensures LiveIn(c, LeakNodes(v), 0, PushTrue) == Some([])
  {
    LeakNested(v);
    LeakWalkOrder(v);
    assert Reverse(LeakNodes(v))[..7] == LeakOrder(v);
    LeakWalkPush(c, v);
  }

  /** With the innermost elseStack entry marked instead, the same variable
   *  is live on entry, as the else-branch's read demands. */
  lemma LeakCorrected(c: LiveCtx, v: string)
    requires Tracked(c, v)
    ensures LiveIn(c, LeakNodes(v), 0, MarkTop) == Some([v])
  {
    LeakWalkOrder(v);
    assert Reverse(LeakNodes(v))[..7] == LeakOrder(v);
    LeakWalkMark(c, v);
  }
}
