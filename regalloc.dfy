/** Register allocation over one function's nodes (driver.cpp,
 *  registerAllocation .. getNextAvailableRegister): a map from the four
 *  registers r0..r3 to the variables they hold, filled from the live lists
 *  node by node, spilling with a STOREI node when all four are taken. */
module RegAlloc {
  import opened Text
  import opened Records

  /** regMap, keyed by register number: key k stands for the register named
   *  RegName(k). The source keys the map by the names "r0".."r3", whose
   *  string order is the numeric order, so iterating the map visits the
   *  registers in the same order as iterating these keys. */
  type RegMap = map<int, string>

  predicate IsReg(k: int) {
    0 <= k < MaxRegisters
  }

  /** Only r0..r3 are keys, and no variable sits in two registers. */
  predicate RegMapOK(m: RegMap) {
    (forall k :: k in m ==> IsReg(k)) &&
    (forall i, j :: i in m && j in m && m[i] == m[j] ==> i == j)
  }

  /** Register k holds s. */
  predicate HoldsAt(m: RegMap, k: int, s: string) {
    k in m && m[k] == s
  }

  /** The lowest register holding s, if any. */
  function FirstHolding(m: RegMap, s: string): (r: Option<int>)
    ensures r.Some? ==> IsReg(r.value) && HoldsAt(m, r.value, s)
    ensures r.Some? ==> forall j :: 0 <= j < r.value ==> !HoldsAt(m, j, s)
    ensures r.None? <==> forall j :: IsReg(j) ==> !HoldsAt(m, j, s)
  {
    if HoldsAt(m, 0, s) then Some(0)
    else if HoldsAt(m, 1, s) then Some(1)
    else if HoldsAt(m, 2, s) then Some(2)
    else if HoldsAt(m, 3, s) then Some(3)
    else None
  }

  /** getRegisterNumber: the name of the lowest register holding s, or "". */
  function RegisterNumber(m: RegMap, s: string): (r: string)
    ensures r != "" <==> exists k :: IsReg(k) && HoldsAt(m, k, s)
    ensures r != "" ==> exists k :: IsReg(k) && HoldsAt(m, k, s) && r == RegName(k)
  {
    match FirstHolding(m, s)
    case Some(k) => RegName(k)
    case None => ""
  }

  /** Under the invariant, the register named by RegisterNumber is the one
   *  register holding s. */
  lemma RegisterNumberUnique(m: RegMap, s: string, k: int)
    requires RegMapOK(m) && HoldsAt(m, k, s)
    ensures RegisterNumber(m, s) == RegName(k)
  {
  }

  /** The register getNextAvailableRegister fills: the lowest of r0, r1, r2
   *  that is free, and otherwise r3, whether or not r3 is free. */
  function NextFree(m: RegMap): (k: int)
    ensures IsReg(k)
    ensures forall j :: 0 <= j < k ==> j in m
    ensures k in m ==> k == MaxRegisters - 1
  {
    if 0 !in m then 0 else if 1 !in m then 1 else if 2 !in m then 2 else 3
  }

  /** The spill node: store register k into variable v. */
  function SpillNode(k: nat, v: string): IRNode {
    IRNode("STOREI", RegName(k), "", v, NoMarker)
  }

  /** The variable is one of node n's operands. */
  predicate UsedBy(n: IRNode, v: string) {
    v == n.op1 || v == n.op2 || v == n.result
  }

  /** The first register, in key order, whose variable node n does not use. */
  function SpillCandidate(m: RegMap, n: IRNode): (r: Option<int>)
    ensures r.Some? ==> IsReg(r.value) && r.value in m && !UsedBy(n, m[r.value])
    ensures r.Some? ==> forall j :: 0 <= j < r.value && j in m ==> UsedBy(n, m[j])
    ensures r.None? <==> forall j :: IsReg(j) && j in m ==> UsedBy(n, m[j])
  {
    if 0 in m && !UsedBy(n, m[0]) then Some(0)
    else if 1 in m && !UsedBy(n, m[1]) then Some(1)
    else if 2 in m && !UsedBy(n, m[2]) then Some(2)
    else if 3 in m && !UsedBy(n, m[3]) then Some(3)
    else None
  }

  /** A set of registers that leaves out register j has at most three members. */
  lemma {:induction false} MissingRegister(ks: set<int>, j: int)
    requires forall k :: k in ks ==> IsReg(k)
    requires IsReg(j) && j !in ks
    ensures |ks| < MaxRegisters
  {
    var all := {0, 1, 2, 3} - {j};
    forall k | k in ks
      ensures k in all
    {
      assert k == 0 || k == 1 || k == 2 || k == 3;
    }
    assert |all| == 3 by {
      if j == 0 { assert all == {1, 2, 3}; }
      else if j == 1 { assert all == {0, 2, 3}; }
      else if j == 2 { assert all == {0, 1, 3}; }
      else { assert all == {0, 1, 2}; }
    }
    SubsetCard(ks, all);
  }

  lemma SubsetCard(a: set<int>, b: set<int>)
    requires a <= b
    ensures |a| <= |b|
  {
    assert b == a + (b - a);
    assert a * (b - a) == {};
  }

  /** A full map holds every register. */
  lemma FullMap(m: RegMap)
    requires RegMapOK(m) && |m| == MaxRegisters
    ensures forall j :: IsReg(j) ==> j in m
  {
    forall j | IsReg(j)
      ensures j in m
    {
      if j !in m {
        MissingRegister(m.Keys, j);
      }
    }
  }

  /** With four distinct variables in the registers and at most three
   *  operands in the node, some register can always be spilled. */
  lemma SpillAlwaysPossible(m: RegMap, n: IRNode)
    requires RegMapOK(m) && |m| == MaxRegisters
    ensures SpillCandidate(m, n).Some?
  {
    FullMap(m);
    assert 0 in m && 1 in m && 2 in m && 3 in m;
    assert m[0] != m[1] && m[0] != m[2] && m[0] != m[3] && m[1] != m[2] && m[1] != m[3] && m[2] != m[3];
  }

  /** Some register holds v (the alreadyReg search over regMap). */
  predicate Held(m: RegMap, v: string) {
    exists k :: k in m && m[k] == v
  }

  /** What is freed before a variable that is not held is placed: when all
   *  four registers are taken, the first one whose variable n does not use
   *  is stored (the spill node) and erased from the map. */
  function Evict(m: RegMap, n: IRNode): (r: (RegMap, seq<IRNode>))
  {
    if |m| == MaxRegisters then
      match SpillCandidate(m, n)
      case Some(k) => (m - {k}, [SpillNode(k, m[k])])
      case None => (m, [])
    else (m, [])
  }

  /** One live variable at node n: nothing when a register holds it;
   *  otherwise the eviction, then the variable goes to the next available
   *  register. */
  function AllocOne(m: RegMap, v: string, n: IRNode): (r: (RegMap, seq<IRNode>))
    ensures |r.1| <= 1
    ensures Held(r.0, v)
  {
    if Held(m, v) then (m, [])
    else
      var e := Evict(m, n);
      var k := NextFree(e.0);
      assert e.0[k := v][k] == v;
      (e.0[k := v], e.1)
  }

  /** With all four registers taken, the spilled register is the one the new
   *  variable gets, and the spilled variable is one the node does not use. */
  lemma EvictFull(m: RegMap, v: string, n: IRNode)
    requires RegMapOK(m) && |m| == MaxRegisters
    ensures SpillCandidate(m, n).Some?
    ensures var k := SpillCandidate(m, n).value;
            Evict(m, n) == (m - {k}, [SpillNode(k, m[k])]) && NextFree(m - {k}) == k && !UsedBy(n, m[k]) &&
            (m - {k})[k := v] == m[k := v]
  {
    SpillAlwaysPossible(m, n);
    FullMap(m);
    var k := SpillCandidate(m, n).value;
    assert NextFree(m - {k}) == k;
  }

  /** With a register free, the next available register is a free one. */
  lemma EvictNotFull(m: RegMap, n: IRNode)
    requires RegMapOK(m) && |m| != MaxRegisters
    ensures Evict(m, n) == (m, []) && NextFree(m) !in m
  {
    if NextFree(m) in m {
      FullMapFromNextFree(m);
    }
  }

  /** Placing a variable no register holds in register k, which is free or
   *  was just emptied, keeps the invariant. */
  lemma PlaceKeepsOK(m: RegMap, k: int, v: string)
    requires RegMapOK(m) && IsReg(k) && !Held(m, v)
    ensures RegMapOK(m[k := v])
  {
  }

  /** AllocOne keeps the invariant, and what it adds is a store of a
   *  variable the node does not use. */
  lemma AllocOneOK(m: RegMap, v: string, n: IRNode)
    requires RegMapOK(m)
    ensures RegMapOK(AllocOne(m, v, n).0)
    ensures forall i :: 0 <= i < |AllocOne(m, v, n).1| ==>
              AllocOne(m, v, n).1[i].opCode == "STOREI" && !UsedBy(n, AllocOne(m, v, n).1[i].result)
  {
    if !Held(m, v) {
      if |m| == MaxRegisters {
        EvictFull(m, v, n);
        var k := SpillCandidate(m, n).value;
        PlaceKeepsOK(m - {k}, k, v);
      } else {
        EvictNotFull(m, n);
        PlaceKeepsOK(m, NextFree(m), v);
      }
    }
  }

  /** AllocOne keeps the invariant; a held variable changes nothing; a spill
   *  happens only for a variable no register holds, with all four taken,
   *  stores a variable the node does not use and hands its register to the
   *  new variable; without a spill the new variable takes a free register,
   *  so no variable leaves the registers without being stored. */
  lemma AllocOneSpec(m: RegMap, v: string, n: IRNode)
    requires RegMapOK(m)
    ensures RegMapOK(AllocOne(m, v, n).0)
    ensures Held(m, v) ==> AllocOne(m, v, n) == (m, [])
    ensures AllocOne(m, v, n).1 != [] ==>
              !Held(m, v) && |m| == MaxRegisters &&
              exists k :: k in m && !UsedBy(n, m[k]) && AllocOne(m, v, n).1 == [SpillNode(k, m[k])] &&
                          AllocOne(m, v, n).0 == m[k := v]
    ensures AllocOne(m, v, n).1 == [] && !Held(m, v) ==>
              exists k :: IsReg(k) && k !in m && AllocOne(m, v, n).0 == m[k := v]
  {
    if !Held(m, v) {
      if |m| == MaxRegisters {
        EvictFull(m, v, n);
        var k := SpillCandidate(m, n).value;
        PlaceKeepsOK(m - {k}, k, v);
      } else {
        EvictNotFull(m, n);
        PlaceKeepsOK(m, NextFree(m), v);
      }
    }
  }

  /** When r0..r3 are all keys of a map whose keys are registers, it is full. */
  lemma FullMapFromNextFree(m: RegMap)
    requires RegMapOK(m) && 0 in m && 1 in m && 2 in m && 3 in m
    ensures |m| == MaxRegisters
  {
    forall k | k in m.Keys
      ensures k in {0, 1, 2, 3}
    {
      assert k == 0 || k == 1 || k == 2 || k == 3;
    }
    assert m.Keys == {0, 1, 2, 3};
  }

  /** The live variables of one node, in order; built from the end so that
   *  a loop over them follows it. */
  function AllocAll(m: RegMap, vs: seq<string>, n: IRNode): (r: (RegMap, seq<IRNode>))
    ensures |r.1| <= |vs|
    decreases |vs|
  {
    if vs == [] then (m, [])
    else
      var (m1, s1) := AllocAll(m, vs[..|vs| - 1], n);
      var (m2, s2) := AllocOne(m1, vs[|vs| - 1], n);
      (m2, s1 + s2)
  }

  /** Allocating a node's live variables keeps the invariant, stores only
   *  variables the node does not use, and leaves the last one in a register. */
  lemma {:induction false} AllocAllSpec(m: RegMap, vs: seq<string>, n: IRNode)
    requires RegMapOK(m)
    ensures RegMapOK(AllocAll(m, vs, n).0)
    ensures forall i :: 0 <= i < |AllocAll(m, vs, n).1| ==>
              AllocAll(m, vs, n).1[i].opCode == "STOREI" && !UsedBy(n, AllocAll(m, vs, n).1[i].result)
    ensures vs != [] ==> Held(AllocAll(m, vs, n).0, vs[|vs| - 1])
    decreases |vs|
  {
    if vs != [] {
      var (m1, s1) := AllocAll(m, vs[..|vs| - 1], n);
      AllocAllSpec(m, vs[..|vs| - 1], n);
      var (m2, s2) := AllocOne(m1, vs[|vs| - 1], n);
      AllocOneOK(m1, vs[|vs| - 1], n);
      assert AllocAll(m, vs, n) == (m2, s1 + s2);
      forall i | 0 <= i < |s1 + s2|
        ensures (s1 + s2)[i].opCode == "STOREI" && !UsedBy(n, (s1 + s2)[i].result)
      {
        if i >= |s1| {
          assert (s1 + s2)[i] == s2[i - |s1|];
        }
      }
    }
  }

  /** The live entries registerAllocation considers: the last four. */
  function LastFour(live: seq<string>): (r: seq<string>)
    ensures |r| == if |live| > MaxRegisters then MaxRegisters else |live|
    ensures forall j :: 0 <= j < |r| ==> r[j] == live[|live| - |r| + j]
  {
    if |live| > MaxRegisters then live[|live| - MaxRegisters..] else live
  }

  /** One more entry: the front one drops out once four are held. */
  lemma LastFourSnoc(s: seq<string>, x: string)
    ensures LastFour(s + [x]) == (if |s| >= MaxRegisters then LastFour(s)[1..] else LastFour(s)) + [x]
  {
    var t := s + [x];
    if |s| >= MaxRegisters {
      assert t[|t| - MaxRegisters..] == s[|s| - MaxRegisters..][1..] + [x];
    }
  }

  /** The copy loop that keeps the last four entries: every entry is pushed,
   *  and the front one is dropped once four are held. */
  method LastFourLoop(live: seq<string>) returns (vars: seq<string>)
    ensures vars == LastFour(live)
  {
    vars := [];
    var i := 0;
    while i < |live|
      invariant 0 <= i <= |live|
      invariant vars == LastFour(live[..i])
    {
      ghost var p := live[..i];
      assert live[..i + 1] == p + [live[i]];
      LastFourSnoc(p, live[i]);
      if i >= MaxRegisters {
        vars := vars[1..];
      }
      vars := vars + [live[i]];
      i := i + 1;
    }
    assert live[..i] == live;
  }

  /** adjustNodeForRegisters on one operand: a non-empty operand held in a
   *  register is replaced by the register's name; any other stays. */
  function AdjustOperand(m: RegMap, x: string): (y: string)
    ensures x != "" && (exists k :: IsReg(k) && HoldsAt(m, k, x)) ==>
              exists k :: IsReg(k) && HoldsAt(m, k, x) && y == RegName(k)
    ensures x == "" || (forall k :: IsReg(k) ==> !HoldsAt(m, k, x)) ==> y == x
  {
    if x == "" then x
    else
      var r := RegisterNumber(m, x);
      if r != "" then r else x
  }

  /** adjustNodeForRegisters: op1, op2 and Result as the registers hold them. */
  function AdjustNode(n: IRNode, m: RegMap): (n': IRNode)
    ensures n'.opCode == n.opCode && n'.ifFlags == n.ifFlags
  {
    n.(op1 := AdjustOperand(m, n.op1), op2 := AdjustOperand(m, n.op2), result := AdjustOperand(m, n.result))
  }

  /** How many of ns are return nodes, matched by the exact opcode as
   *  registerAllocation matches them. */
  function CountRet(ns: seq<IRNode>): (k: nat)
    ensures k <= |ns|
  {
    if ns == [] then 0 else CountRet(ns[..|ns| - 1]) + (if ns[|ns| - 1].opCode == "RETURN" then 1 else 0)
  }

  /** The i-th return value, when it names a variable held in a register,
   *  becomes that register's name; nothing else of the record changes. */
  function SubstRet(f: FuncRecord, i: nat, m: RegMap): (g: FuncRecord)
    requires i < |f.retVals|
    ensures g == f.(retVals := g.retVals) && |g.retVals| == |f.retVals|
    ensures forall j :: 0 <= j < |f.retVals| && j != i ==> g.retVals[j] == f.retVals[j]
    ensures var x := f.retVals[i];
            if x != "" && !IsLiteral(x) && exists k :: IsReg(k) && HoldsAt(m, k, x)
            then exists k :: IsReg(k) && HoldsAt(m, k, x) && g.retVals[i] == RegName(k)
            else g.retVals[i] == x
  {
    var x := f.retVals[i];
    if x != "" && !IsLiteral(x) then
      var r := RegisterNumber(m, x);
      if r != "" then f.(retVals := f.retVals[i := r]) else f
    else f
  }

  /** What registerAllocation keeps from node to node: the register map,
   *  the return counter, the node list built so far and the function record. */
  datatype AllocState = AllocState(regs: RegMap, retNum: nat, out: seq<IRNode>, f: FuncRecord)

  /** One node with the live list paired with it: its (last four) live
   *  variables are put in registers, spilling as needed; a return node's
   *  return value is renamed; the node follows its spills with its operands
   *  renamed to the registers. */
  function NodeStep(st: AllocState, n: IRNode, live: seq<string>): AllocState
    requires n.opCode == "RETURN" ==> st.retNum < |st.f.retVals|
  {
    var (m, spills) := AllocAll(st.regs, LastFour(live), n);
    if n.opCode == "RETURN" then
      AllocState(m, st.retNum + 1, st.out + spills + [AdjustNode(n, m)], SubstRet(st.f, st.retNum, m))
    else
      AllocState(m, st.retNum, st.out + spills + [AdjustNode(n, m)], st.f)
  }

  lemma CountRetPrefix(ns: seq<IRNode>, j: nat)
    requires 0 < j <= |ns|
    ensures CountRet(ns[..j]) == CountRet(ns[..j - 1]) + (if ns[j - 1].opCode == "RETURN" then 1 else 0)
  {
    assert ns[..j][..j - 1] == ns[..j - 1];
  }

  /** The first j nodes done, node k paired with live[|live| - 1 - k] (the
   *  live lists are read from the back while the nodes go forwards). */
  function AllocPrefix(live: seq<seq<string>>, nodes: seq<IRNode>, f: FuncRecord, j: nat): (r: AllocState)
    requires j <= |nodes| <= |live| && CountRet(nodes[..j]) <= |f.retVals|
    ensures r.retNum == CountRet(nodes[..j])
    ensures r.f == f.(retVals := r.f.retVals) && |r.f.retVals| == |f.retVals|
    ensures RegMapOK(r.regs)
    decreases j
  {
    if j == 0 then AllocState(map[], 0, [], f)
    else
      CountRetPrefix(nodes, j);
      var prev := AllocPrefix(live, nodes, f, j - 1);
      NodeStepOK(prev, nodes[j - 1], live[|live| - j]);
      NodeStep(prev, nodes[j - 1], live[|live| - j])
  }

  /** registerAllocation's result over a whole function. */
  function Allocate(live: seq<seq<string>>, nodes: seq<IRNode>, f: FuncRecord): AllocState
    requires |nodes| <= |live| && CountRet(nodes) <= |f.retVals|
  {
    assert nodes[..|nodes|] == nodes;
    AllocPrefix(live, nodes, f, |nodes|)
  }

  /** One node keeps the map's invariant; the list grows by the node's
   *  spills, stores of variables the node does not use, and then by the
   *  node itself with its opcode and marker and its operands renamed to the
   *  registers that hold them. */
  lemma NodeStepSpec(st: AllocState, n: IRNode, live: seq<string>)
    requires RegMapOK(st.regs)
    requires n.opCode == "RETURN" ==> st.retNum < |st.f.retVals|
    ensures var r := NodeStep(st, n, live);
            RegMapOK(r.regs) &&
            |st.out| < |r.out| <= |st.out| + 1 + MaxRegisters && r.out[..|st.out|] == st.out &&
            r.out[|r.out| - 1] == AdjustNode(n, r.regs) &&
            forall i :: |st.out| <= i < |r.out| - 1 ==> r.out[i].opCode == "STOREI" && !UsedBy(n, r.out[i].result)
  {
    var (m, spills) := AllocAll(st.regs, LastFour(live), n);
    AllocAllSpec(st.regs, LastFour(live), n);
    var out := st.out + spills + [AdjustNode(n, m)];
    assert out[..|st.out|] == st.out;
    forall i | |st.out| <= i < |out| - 1
      ensures out[i].opCode == "STOREI" && !UsedBy(n, out[i].result)
    {
      assert out[i] == spills[i - |st.out|];
    }
  }

  /** One node keeps the map's invariant. */
  lemma NodeStepOK(st: AllocState, n: IRNode, live: seq<string>)
    requires RegMapOK(st.regs)
    requires n.opCode == "RETURN" ==> st.retNum < |st.f.retVals|
    ensures RegMapOK(NodeStep(st, n, live).regs)
  {
    AllocAllSpec(st.regs, LastFour(live), n);
  }

  /** The alreadyReg loop: does some register hold v? */
  method IsHeld(m: RegMap, v: string) returns (held: bool)
    requires RegMapOK(m)
    ensures held == Held(m, v)
  {
    var k := 0;
    while k < MaxRegisters && !HoldsAt(m, k, v)
      invariant 0 <= k <= MaxRegisters
      invariant forall j :: 0 <= j < k ==> !HoldsAt(m, j, v)
    {
      k := k + 1;
    }
    held := k < MaxRegisters;
    if !held {
      forall j | j in m
        ensures m[j] != v
      {
        assert IsReg(j) && !HoldsAt(m, j, v);
      }
    }
  }

  /** The spill search: the first register, in key order, whose variable
   *  node n does not use. */
  method FindSpill(m: RegMap, n: IRNode) returns (r: Option<int>)
    ensures r == SpillCandidate(m, n)
  {
    var k := 0;
    while k < MaxRegisters && !(k in m && !UsedBy(n, m[k]))
      invariant 0 <= k <= MaxRegisters
      invariant forall j :: 0 <= j < k ==> !(j in m && !UsedBy(n, m[j]))
    {
      k := k + 1;
    }
    r := if k < MaxRegisters then Some(k) else None;
  }

  /** One live variable: the search, the spill when the map is full, and
   *  getNextAvailableRegister. */
  method PlaceVar(m0: RegMap, v: string, n: IRNode) returns (m: RegMap, added: seq<IRNode>)
    requires RegMapOK(m0)
    ensures (m, added) == AllocOne(m0, v, n)
  {
    var held := IsHeld(m0, v);
    m, added := m0, [];
    if !held {
      if |m| == MaxRegisters {
        var c := FindSpill(m, n);
        if c.Some? {
          added := [SpillNode(c.value, m[c.value])];
          m := m - {c.value};
        }
      }
      assert (m, added) == Evict(m0, n);
      var k := NextFree(m);
      m := m[k := v];
    }
  }

  /** The loop over one node's live variables. */
  method AllocVars(m0: RegMap, vs: seq<string>, n: IRNode) returns (m: RegMap, spills: seq<IRNode>)
    requires RegMapOK(m0)
    ensures (m, spills) == AllocAll(m0, vs, n)
  {
    m, spills := m0, [];
    var i := 0;
    while i < |vs|
      invariant 0 <= i <= |vs|
      invariant (m, spills) == AllocAll(m0, vs[..i], n)
      invariant RegMapOK(m)
    {
      assert vs[..i + 1][..i] == vs[..i];
      AllocOneSpec(m, vs[i], n);
      var m1, added := PlaceVar(m, vs[i], n);
      m, spills := m1, spills + added;
      i := i + 1;
    }
    assert vs[..i] == vs;
  }

  /** A return node's return value: renamed to the register holding it
   *  unless it is empty or a literal. */
  method RenameRetVal(g0: FuncRecord, i: nat, m: RegMap) returns (g: FuncRecord)
    requires i < |g0.retVals|
    ensures g == SubstRet(g0, i, m)
  {
    g := g0;
    var x := g.retVals[i];
    if x != "" && !IsDigit(x[0]) && x[0] != '.' {
      var r := RegisterNumber(m, x);
      if r != "" {
        g := g.(retVals := g.retVals[i := r]);
      }
    }
  }

  /** The body of registerAllocation's loop for one node. */
  method AllocNode(st: AllocState, n: IRNode, live: seq<string>) returns (r: AllocState)
    requires RegMapOK(st.regs)
    requires n.opCode == "RETURN" ==> st.retNum < |st.f.retVals|
    ensures r == NodeStep(st, n, live)
  {
    var vars := LastFourLoop(live);
    var m, spills := AllocVars(st.regs, vars, n);
    var out := st.out + spills + [AdjustNode(n, m)];
    if n.opCode == "RETURN" {
      var g := RenameRetVal(st.f, st.retNum, m);
      r := AllocState(m, st.retNum + 1, out, g);
    } else {
      r := AllocState(m, st.retNum, out, st.f);
    }
  }

  /** registerAllocation: the nodes with their spills and renamed operands,
   *  and the function record with its return values renamed. */
  method RegisterAllocation(live: seq<seq<string>>, nodes: seq<IRNode>, f: FuncRecord)
    returns (out: seq<IRNode>, g: FuncRecord)
    requires |nodes| <= |live| && CountRet(nodes) <= |f.retVals|
    ensures out == Allocate(live, nodes, f).out && g == Allocate(live, nodes, f).f
  {
    var st := AllocState(map[], 0, [], f);
    var j := 0;
    while j < |nodes|
      invariant 0 <= j <= |nodes|
      invariant CountRet(nodes[..j]) <= |f.retVals|
      invariant st == AllocPrefix(live, nodes, f, j)
    {
      AllocLoopStep(live, nodes, f, j);
      st := AllocNode(st, nodes[j], live[|live| - 1 - j]);
      j := j + 1;
    }
    assert nodes[..j] == nodes;
    out, g := st.out, st.f;
  }

  /** What one turn of registerAllocation's loop relies on: the state so
   *  far keeps the invariant, a return node has a return value to rename,
   *  and the next state is one NodeStep further. */
  lemma AllocLoopStep(live: seq<seq<string>>, nodes: seq<IRNode>, f: FuncRecord, j: nat)
    requires j < |nodes| <= |live| && CountRet(nodes) <= |f.retVals|
    ensures CountRet(nodes[..j]) <= CountRet(nodes[..j + 1]) <= |f.retVals|
    ensures var st := AllocPrefix(live, nodes, f, j);
            RegMapOK(st.regs) &&
            (nodes[j].opCode == "RETURN" ==> st.retNum < |st.f.retVals|) &&
            AllocPrefix(live, nodes, f, j + 1) == NodeStep(st, nodes[j], live[|live| - 1 - j])
  {
    CountRetPrefix(nodes, j + 1);
    CountRetMono(nodes, j + 1);
  }

  lemma {:induction false} CountRetMono(ns: seq<IRNode>, j: nat)
    requires j <= |ns|
    ensures CountRet(ns[..j]) <= CountRet(ns)
    decreases |ns| - j
  {
    if j < |ns| {
      CountRetMono(ns, j + 1);
      CountRetPrefix(ns, j + 1);
    } else {
      assert ns[..j] == ns;
    }
  }
}
