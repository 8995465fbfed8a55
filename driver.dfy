/** The compiler's driver object (driver.h, driver.cpp): the state the
 *  parser's actions fill in — the symbol table, the current scope, the IR
 *  node lists, the expression buffer, the counters for temporaries and
 *  labels, the function list and the per-function node lists — and the
 *  operations on it, each proved against the functions of the modules it
 *  imports. */
module DriverState {
  import opened Text
  import opened Records
  import opened Functions
  import opened Symbols
  import opened Lowering
  import opened Liveness
  import opened RegAlloc
  import opened CodeGen

  // ---------------------------------------------------------------------
  // pushParams and popParams

  /** The node pushParams emits for a declared argument. */
  function PushNode(x: string): IRNode {
    IRNode("PUSH", "", "", x, NoMarker)
  }

  /** The node popParams emits: a pop into nothing. */
  const PopNode: IRNode := IRNode("POP", "", "", "", NoMarker)

  /** How many entries of es declare x. */
  function Occurrences(es: seq<VarEntry>, x: string): nat
    decreases |es|
  {
    if es == [] then 0
    else Occurrences(es[..|es| - 1], x) + (if es[|es| - 1].identifier == x then 1 else 0)
  }

  /** The pushes for one argument x: one per entry of the scope that
   *  declares it, none when the scope does not declare it. */
  function PushesFor(es: seq<VarEntry>, x: string): (r: seq<IRNode>)
    ensures |r| == Occurrences(es, x)
    ensures forall j :: 0 <= j < |r| ==> r[j] == PushNode(x)
    decreases |es|
  {
    if es == [] then []
    else PushesFor(es[..|es| - 1], x) + (if es[|es| - 1].identifier == x then [PushNode(x)] else [])
  }

  /** The nodes pushParams(v) emits over the entries es of the newest scope. */
  function ParamPushes(es: seq<VarEntry>, v: seq<string>): seq<IRNode>
    decreases |v|
  {
    if v == [] then [] else ParamPushes(es, v[..|v| - 1]) + PushesFor(es, v[|v| - 1])
  }

  /** When every argument is declared exactly once in the newest scope, the
   *  arguments are pushed once each, in call order. */
  lemma {:induction false} ParamPushesInOrder(es: seq<VarEntry>, v: seq<string>)
    requires forall i :: 0 <= i < |v| ==> Occurrences(es, v[i]) == 1
    ensures |ParamPushes(es, v)| == |v|
    ensures forall i :: 0 <= i < |v| ==> ParamPushes(es, v)[i] == PushNode(v[i])
    decreases |v|
  {
    if v != [] {
      var init := v[..|v| - 1];
      assert forall i :: 0 <= i < |init| ==> init[i] == v[i];
      ParamPushesInOrder(es, init);
      var r := ParamPushes(es, init);
      var p := PushesFor(es, v[|v| - 1]);
      assert |p| == 1 && p[0] == PushNode(v[|v| - 1]);
      assert ParamPushes(es, v) == r + p;
      forall i | 0 <= i < |v|
        ensures (r + p)[i] == PushNode(v[i])
      {
        if i < |init| {
          assert (r + p)[i] == r[i];
        }
      }
    }
  }

  /** An argument that the newest scope does not declare (a global, a
   *  literal, a name of another scope) is not pushed at all. */
  lemma {:induction false} UndeclaredArgumentSkipped(es: seq<VarEntry>, v: seq<string>, x: string)
    requires Occurrences(es, x) == 0
    ensures ParamPushes(es, v + [x]) == ParamPushes(es, v)
  {
    assert (v + [x])[..|v|] == v;
    assert PushesFor(es, x) == [];
  }

  // ---------------------------------------------------------------------
  // functionalLiveness and performLivenessAnalysis

  /** What the analysis of one function changes: the symbol table, the
   *  function list and the function's own node list. */
  datatype Analysed = Analysed(table: SymbolTable, fs: seq<FuncRecord>, nodes: seq<IRNode>)

  /** The record functionalLiveness works on: the function named by the
   *  label that opens the nodes, or an empty record. */
  function FunctionOf(fs: seq<FuncRecord>, nodes: seq<IRNode>): FuncRecord
    requires |nodes| > 0
  {
    FindFuncOr(fs, FunctionName(nodes), NewFunction(""))
  }

  /** functionalLiveness(nodes): the function's temporaries moved to the
   *  slots after its locals, the backward walk, register allocation with
   *  the walk's live lists, and the updated record written back. None when
   *  the walk or the allocation would read outside a stack or the return
   *  values, which the source does without a check. */
  function LiveFunction(t: SymbolTable, sv: seq<string>, fs: seq<FuncRecord>, nodes: seq<IRNode>): (r: Option<Analysed>)
    requires |nodes| > 0
  {
    var f := FunctionOf(fs, nodes);
    var t1 := RenumberTemps(t, sv, f.name);
    var c := LiveCtx(t1, fs, FunctionName(nodes));
    match LiveVec(c, nodes, MarkTop)
    case None => None
    case Some(lv) =>
      if CountRet(nodes) <= |f.retVals| then
        var a := Allocate(lv, nodes, f);
        Some(Analysed(t1, Overwrite(fs, a.f), a.out))
      else None
  }

  /** The analysis touches one record of the function list, the one it
   *  worked on; when the function has a record, that record keeps its name,
   *  parameters, type, return slot and number of return values. The symbol
   *  table changes only in the storage names of temporaries. */
  lemma LiveFunctionFrame(t: SymbolTable, sv: seq<string>, fs: seq<FuncRecord>, nodes: seq<IRNode>)
    requires |nodes| > 0 && LiveFunction(t, sv, fs, nodes).Some?
    ensures var r := LiveFunction(t, sv, fs, nodes).value;
            var k := FindIndex(fs, FunctionOf(fs, nodes).name);
            |r.fs| == |fs| &&
            (forall j :: 0 <= j < |fs| && j != k ==> r.fs[j] == fs[j]) &&
            (FindFunc(fs, FunctionName(nodes)).Some? ==>
               k < |fs| && r.fs[k] == fs[k].(retVals := r.fs[k].retVals) && |r.fs[k].retVals| == |fs[k].retVals|)
    ensures var r := LiveFunction(t, sv, fs, nodes).value;
            r.table.Keys == t.Keys &&
            (forall k :: k in t ==> |r.table[k]| == |t[k]|) &&
            (forall k, i :: k in t && 0 <= i < |t[k]| ==>
               r.table[k][i].identifier == t[k][i].identifier && r.table[k][i].ty == t[k][i].ty &&
               (!IsTemp(t[k][i].identifier) ==> r.table[k][i] == t[k][i]))
  {
    var f := FunctionOf(fs, nodes);
    RenumberTempsFrame(t, sv, f.name);
    var c := LiveCtx(RenumberTemps(t, sv, f.name), fs, FunctionName(nodes));
    var a := Allocate(LiveVec(c, nodes, MarkTop).value, nodes, f);
    WriteBackFrame(fs, f, a.f);
    if FindFunc(fs, FunctionName(nodes)).Some? {
      var k := FindIndex(fs, FunctionName(nodes));
      assert f == fs[k];
    }
  }

  /** One turn of performLivenessAnalysis's loop, from the state s the
   *  turns before it left: the next function is in the map with nodes, its
   *  analysis a succeeds and takes the state one name further. */
  lemma AnalyseTurn(sv: seq<string>, s0: LiveState, names: seq<string>, i: nat, s: LiveState) returns (a: Analysed)
    requires i < |names| && AnalyseAll(sv, s0, names).Some? && AnalyseAll(sv, s0, names[..i]) == Some(s)
    ensures names[i] in s.fm && s.fm[names[i]] != [] && LiveFunction(s.table, sv, s.fs, s.fm[names[i]]) == Some(a)
    ensures AnalyseAll(sv, s0, names[..i + 1]) == Some(LiveState(a.table, a.fs, s.fm[names[i] := a.nodes], s.out + a.nodes))
  {
    AnalyseStep(sv, s0, names, i);
    AnalyseOneSome(sv, s, names[i]);
    a := LiveFunction(s.table, sv, s.fs, s.fm[names[i]]).value;
  }

  /** The analysis of all the functions puts nothing in a scope that was
   *  not opened. */
  lemma {:induction false} AnalyseAllOpened(sv: seq<string>, s: LiveState, names: seq<string>, n: nat)
    requires AnalyseAll(sv, s, names).Some? && OnlyOpened(s.table, n)
    ensures OnlyOpened(AnalyseAll(sv, s, names).value.table, n)
    decreases |names|
  {
    if names != [] {
      var init := names[..|names| - 1];
      AnalyseAllPrefix(sv, s, names, |names| - 1);
      assert names[..|names| - 1] == init;
      AnalyseAllOpened(sv, s, init, n);
      var s1 := AnalyseAll(sv, s, init).value;
      AnalyseOneSome(sv, s1, names[|names| - 1]);
      LiveFunctionOpened(s1.table, sv, s1.fs, s1.fm[names[|names| - 1]], n);
    }
  }

  /** The analysis puts nothing in a scope that was not opened. */
  lemma LiveFunctionOpened(t: SymbolTable, sv: seq<string>, fs: seq<FuncRecord>, nodes: seq<IRNode>, n: nat)
    requires |nodes| > 0 && LiveFunction(t, sv, fs, nodes).Some? && OnlyOpened(t, n)
    ensures OnlyOpened(LiveFunction(t, sv, fs, nodes).value.table, n)
  {
    LiveFunctionSteps(t, sv, fs, nodes);
    RenumberKeepsOpened(t, sv, FunctionOf(fs, nodes).name, n);
  }

  /** Renumbering puts nothing in a scope that was not opened. */
  lemma RenumberKeepsOpened(t: SymbolTable, sv: seq<string>, fname: string, n: nat)
    requires OnlyOpened(t, n)
    ensures OnlyOpened(RenumberTemps(t, sv, fname), n)
  {
    var t' := RenumberTemps(t, sv, fname);
    RenumberTempsFrame(t, sv, fname);
    forall k | k < 0 || k > n
      ensures Lookup(t', k) == []
    {
      assert Lookup(t, k) == [];
    }
  }

  /** A successful analysis, step by step. */
  lemma LiveFunctionSteps(t: SymbolTable, sv: seq<string>, fs: seq<FuncRecord>, nodes: seq<IRNode>)
    requires |nodes| > 0 && LiveFunction(t, sv, fs, nodes).Some?
    ensures var f := FunctionOf(fs, nodes);
            var t1 := RenumberTemps(t, sv, f.name);
            var lv := LiveVec(LiveCtx(t1, fs, FunctionName(nodes)), nodes, MarkTop);
            lv.Some? && CountRet(nodes) <= |f.retVals| &&
            var a := Allocate(lv.value, nodes, f);
            LiveFunction(t, sv, fs, nodes).value == Analysed(t1, Overwrite(fs, a.f), a.out)
  {
  }

  /** Writing back a record that differs from f only in its return values. */
  lemma WriteBackFrame(fs: seq<FuncRecord>, f: FuncRecord, g: FuncRecord)
    requires g == f.(retVals := g.retVals)
    ensures var k := FindIndex(fs, f.name);
            var fs' := Overwrite(fs, g);
            |fs'| == |fs| && (forall j :: 0 <= j < |fs| && j != k ==> fs'[j] == fs[j]) &&
            (k < |fs| ==> fs'[k] == g)
  {
    var k := FindIndex(fs, f.name);
    if k < |fs| {
      assert FindFunc(fs, g.name) == Some(fs[k]);
      assert FindFunc(Overwrite(fs, g), g.name) == Some(g);
      FindIndexAt(Overwrite(fs, g), g.name, k);
    }
  }

  /** What performLivenessAnalysis carries from one function to the next:
   *  the symbol table, the function list, the function map and
   *  liveNodeList. */
  datatype LiveState = LiveState(table: SymbolTable, fs: seq<FuncRecord>, fm: map<string, seq<IRNode>>, out: seq<IRNode>)

  /** One function of the map: analysed in place, and appended to the output. */
  function AnalyseOne(sv: seq<string>, s: LiveState, name: string): (r: Option<LiveState>)
    ensures r.Some? ==> name in s.fm && r.value.fm.Keys == s.fm.Keys && r.value.fm == s.fm[name := r.value.fm[name]]
    ensures r.Some? ==> r.value.out == s.out + r.value.fm[name]
  {
    if name !in s.fm || s.fm[name] == [] then None
    else
      match LiveFunction(s.table, sv, s.fs, s.fm[name])
      case None => None
      case Some(a) => Some(LiveState(a.table, a.fs, s.fm[name := a.nodes], s.out + a.nodes))
  }

  /** A successful analysis of one function, unfolded. */
  lemma AnalyseOneSome(sv: seq<string>, s: LiveState, name: string)
    requires AnalyseOne(sv, s, name).Some?
    ensures name in s.fm && s.fm[name] != [] && LiveFunction(s.table, sv, s.fs, s.fm[name]).Some?
    ensures var a := LiveFunction(s.table, sv, s.fs, s.fm[name]).value;
            AnalyseOne(sv, s, name) == Some(LiveState(a.table, a.fs, s.fm[name := a.nodes], s.out + a.nodes))
  {
  }

  /** The functions named by names, first to last. */
  function AnalyseAll(sv: seq<string>, s: LiveState, names: seq<string>): Option<LiveState>
    decreases |names|
  {
    if names == [] then Some(s)
    else
      match AnalyseAll(sv, s, names[..|names| - 1])
      case None => None
      case Some(s1) => AnalyseOne(sv, s1, names[|names| - 1])
  }

  /** An analysis that gets through names got through every prefix of them. */
  lemma {:induction false} AnalyseAllPrefix(sv: seq<string>, s: LiveState, names: seq<string>, k: nat)
    requires k <= |names| && AnalyseAll(sv, s, names).Some?
    ensures AnalyseAll(sv, s, names[..k]).Some?
    decreases |names|
  {
    if k < |names| {
      assert names[..|names| - 1][..k] == names[..k];
      AnalyseAllPrefix(sv, s, names[..|names| - 1], k);
    } else {
      assert names[..k] == names;
    }
  }

  /** One turn of performLivenessAnalysis's loop: the analysis of the next
   *  function succeeds and takes the state one name further. */
  lemma AnalyseStep(sv: seq<string>, s0: LiveState, names: seq<string>, i: nat)
    requires i < |names| && AnalyseAll(sv, s0, names).Some? && AnalyseAll(sv, s0, names[..i]).Some?
    ensures var s := AnalyseAll(sv, s0, names[..i]).value;
            AnalyseOne(sv, s, names[i]).Some? && AnalyseAll(sv, s0, names[..i + 1]) == AnalyseOne(sv, s, names[i])
  {
    AnalyseAllPrefix(sv, s0, names, i + 1);
    assert names[..i + 1][..i] == names[..i];
  }

  /** The analysis keeps the function map's names, and liveNodeList grows by
   *  the analysed functions in the order they were visited. */
  lemma {:induction false} AnalyseAllOutput(sv: seq<string>, s: LiveState, names: seq<string>)
    requires AnalyseAll(sv, s, names).Some?
    ensures var r := AnalyseAll(sv, s, names).value;
            r.fm.Keys == s.fm.Keys && |r.out| >= |s.out| && r.out[..|s.out|] == s.out
    decreases |names|
  {
    if names != [] {
      AnalyseAllPrefix(sv, s, names, |names| - 1);
      AnalyseAllOutput(sv, s, names[..|names| - 1]);
    }
  }

  /** Strictly ascending in the key order. */
  ghost predicate Ascending(ks: seq<string>) {
    forall i, j :: 0 <= i < j < |ks| ==> Below(ks[i], ks[j])
  }

  /** The keys of a std::map in the order its iterator visits them: the
   *  first key, then the others in that order. */
  ghost function InKeyOrder(s: set<string>): seq<string>
    decreases |s|
  {
    if s == {} then []
    else
      HasLeast(s);
      var m :| Least(m, s);
      [m] + InKeyOrder(s - {m})
  }

  /** The key order lists every key once, ascending. */
  lemma {:induction false} InKeyOrderSpec(s: set<string>)
    ensures |InKeyOrder(s)| == |s| && forall x :: x in InKeyOrder(s) <==> x in s
    ensures Ascending(InKeyOrder(s))
    decreases |s|
  {
    if s != {} {
      HasLeast(s);
      var m :| Least(m, s) && InKeyOrder(s) == [m] + InKeyOrder(s - {m});
      InKeyOrderSpec(s - {m});
      LeastFirst(m, s, InKeyOrder(s - {m}));
    }
  }

  /** The least key put before an ascending listing of the other keys lists
   *  every key once, ascending. */
  lemma LeastFirst(m: string, s: set<string>, rest: seq<string>)
    requires Least(m, s) && Ascending(rest)
    requires |rest| == |s - {m}| && forall x :: x in rest <==> x in s - {m}
    ensures |[m] + rest| == |s| && forall x :: x in [m] + rest <==> x in s
    ensures Ascending([m] + rest)
  {
    assert s == (s - {m}) + {m};
    var r := [m] + rest;
    forall i, j | 0 <= i < j < |r|
      ensures Below(r[i], r[j])
    {
      assert r[j] == rest[j - 1] && r[j] in s - {m};
      if i > 0 {
        assert r[i] == rest[i - 1];
      }
    }
  }

  /** The map's keys, smallest first: the order performLivenessAnalysis
   *  visits the functions in. */
  method SortedKeys(fm: map<string, seq<IRNode>>) returns (ks: seq<string>)
    ensures ks == InKeyOrder(fm.Keys)
  {
    ks := [];
    var rest := fm.Keys;
    while rest != {}
      invariant ks + InKeyOrder(rest) == InKeyOrder(fm.Keys)
      decreases |rest|
    {
      HasLeast(rest);
      var m :| m in rest && Least(m, rest);
      InKeyOrderUnfold(rest, m);
      ghost var tail := InKeyOrder(rest - {m});
      assert ks + [m] + tail == ks + ([m] + tail);
      ks := ks + [m];
      rest := rest - {m};
    }
  }

  /** The key order starts with the first key. */
  lemma InKeyOrderUnfold(s: set<string>, m: string)
    requires Least(m, s)
    ensures InKeyOrder(s) == [m] + InKeyOrder(s - {m})
  {
    HasLeast(s);
    var m' :| Least(m', s) && InKeyOrder(s) == [m'] + InKeyOrder(s - {m'});
    LeastUnique(m, m', s);
  }

  // ---------------------------------------------------------------------
  // interpretTree's operator loops on a buffer edited in place

  /** Reducing at position i of the buffer r: the operator and its
   *  neighbours give way to the temporary, and the scan resumes at i. */
  lemma PassReduces(st: LowerState, ops: set<string>, r: seq<string>, i: nat)
    requires 0 < i && i + 1 < |r| && r[i] in ops
    ensures var st1 := Reduce(st, r[i], r[i - 1], r[i + 1]);
            var r' := r[..i - 1] + [st1.recent] + r[i + 2..];
            Pass(st, ops, r[..i], r[i..]) == Pass(st1, ops, r'[..i], r'[i..])
  {
    var st1 := Reduce(st, r[i], r[i - 1], r[i + 1]);
    var r' := r[..i - 1] + [st1.recent] + r[i + 2..];
    assert r'[..i] == r[..i][..i - 1] + [st1.recent] && r'[i..] == r[i..][2..];
  }

  /** Passing over position i of the buffer r. */
  lemma PassSkips(st: LowerState, ops: set<string>, r: seq<string>, i: nat)
    requires i < |r| && !(r[i] in ops && i > 0 && i + 1 < |r|)
    ensures Pass(st, ops, r[..i], r[i..]) == Pass(st, ops, r[..i + 1], r[i + 1..])
  {
    assert r[..i + 1] == r[..i] + [r[i]] && r[i + 1..] == r[i..][1..];
  }

  // ---------------------------------------------------------------------
  // modifyTempVarAltNames's loop

  /** The renumbering loop: each temporary of es, in order, takes the slot
   *  "$-tempNum", tempNum counting up from start. */
  method RenumberLoop(es: seq<VarEntry>, start: nat) returns (renamed: seq<VarEntry>)
    ensures renamed == RenumberFrom(es, start)
  {
    var tempNum := start;
    renamed := es;
    var j := 0;
    while j < |es|
      invariant 0 <= j <= |es| && |renamed| == |es| && renamed[j..] == es[j..]
      invariant RenumberFrom(es, start) == renamed[..j] + RenumberFrom(es[j..], tempNum)
    {
      RenumberHead(es, j, tempNum);
      ghost var done := renamed[..j];
      ghost var before := RenumberFrom(es[j..], tempNum);
      var e := es[j];
      if IsTemp(e.identifier) {
        e := e.(altName := LocalSlot(tempNum));
        tempNum := tempNum + 1;
      }
      ghost var after := RenumberFrom(es[j + 1..], tempNum);
      assert before == [e] + after;
      SliceReplace(renamed, j, e);
      renamed := renamed[j := e];
      Reassociate(done, e, after);
      j := j + 1;
    }
    assert renamed[..j] == renamed && es[j..] == [];
  }

  /** The renumbering of es[j..] starts with what becomes of es[j]. */
  lemma RenumberHead(es: seq<VarEntry>, j: nat, next: nat)
    requires j < |es|
    ensures var e := es[j];
            var head := if IsTemp(e.identifier) then e.(altName := LocalSlot(next)) else e;
            var next' := if IsTemp(e.identifier) then next + 1 else next;
            RenumberFrom(es[j..], next) == [head] + RenumberFrom(es[j + 1..], next')
  {
    assert es[j..][1..] == es[j + 1..];
  }

  lemma Reassociate<T>(a: seq<T>, x: T, b: seq<T>)
    ensures a + ([x] + b) == (a + [x]) + b
  {
  }

  /** Replacing position j of s: the prefix grows by the new element and the
   *  tail past j is kept. */
  lemma SliceReplace<T>(s: seq<T>, j: nat, x: T)
    requires j < |s|
    ensures s[j := x][..j + 1] == s[..j] + [x] && s[j := x][j + 1..] == s[j + 1..]
  {
  }

  // ---------------------------------------------------------------------
  // The driver

  /** A list that is the tail end of another. */
  ghost predicate IsSuffix(s: seq<IRNode>, t: seq<IRNode>) {
    |s| <= |t| && t[|t| - |s|..] == s
  }

  lemma SuffixAppend(s: seq<IRNode>, t: seq<IRNode>, a: seq<IRNode>)
    requires IsSuffix(s, t)
    ensures IsSuffix(s + a, t + a)
  {
    assert (t + a)[|t + a| - |s + a|..] == t[|t| - |s|..] + a;
  }

  /** The scopes past the first n hold nothing. */
  ghost predicate OnlyOpened(t: SymbolTable, n: nat) {
    forall k :: (k < 0 || k > n) ==> Lookup(t, k) == []
  }

  /** Changing scope depth, one of the first n, keeps the others empty. */
  lemma OnlyOpenedUpdate(t: SymbolTable, n: nat, depth: nat, es: seq<VarEntry>)
    requires OnlyOpened(t, n) && depth <= n
    ensures OnlyOpened(t[depth := es], n)
  {
    var t' := t[depth := es];
    forall k | k < 0 || k > n
      ensures Lookup(t', k) == []
    {
      assert k != depth && Lookup(t, k) == [];
    }
  }

  /** The name the current scope has after the given scopes were opened. */
  function ScopeAfter(sv: seq<string>): string {
    if sv == [] then GlobalScope else sv[|sv| - 1]
  }

  /** The most recent temporary after n were made. */
  function RecentAfter(n: nat): string {
    if n == 0 then NoTempYet else TempName(n - 1)
  }

  /** The labels generated by the first n calls to generateLabel. */
  function Issued(n: nat): set<string> {
    set k: nat | k < n :: LabelName(k)
  }

  /** The driver's invariant, on the fields lowering touches, survives
   *  any extension of the state. */
  lemma ExtendsKeepsDriver(st: LowerState, st': LowerState)
    requires Extends(st, st')
    requires OnlyOpened(st.table, st.depth) && st.recent == RecentAfter(st.tempCount) && IsSuffix(st.sub, st.nodes)
    ensures OnlyOpened(st'.table, st'.depth) && st'.recent == RecentAfter(st'.tempCount) && IsSuffix(st'.sub, st'.nodes)
  {
    var added := st'.nodes[|st.nodes|..];
    assert st'.nodes == st.nodes + added;
    SuffixAppend(st.sub, st.nodes, added);
    forall k | k < 0 || k > st'.depth
      ensures Lookup(st'.table, k) == []
    {
      assert k != st.depth;
    }
  }

  class Driver {
    var symbolTable: SymbolTable
    var functionMap: map<string, seq<IRNode>>
    var scope: string
    var nodeList: seq<IRNode>
    var curNode: IRNode
    var treeStack: seq<string>
    var mostRecentTempVar: string
    /** labelStack, top at the end. */
    var labelStack: seq<string>
    var fs: seq<FuncRecord>
    var returnExpr: bool
    var subNodeList: seq<IRNode>
    var liveNodeList: seq<IRNode>
    var scopeVec: seq<string>
    var tempVarCount: nat
    var tempLabelCount: nat
    /** tinyStream, one line per element. */
    var tinyStream: seq<string>
    var liveness: bool

    /** What the driver's own operations keep true: entries only in scopes
     *  that were opened, the current scope is the last one opened, the most
     *  recent temporary is the last one made, every label on labelStack was
     *  generated, and subNodeList is the tail end of nodeList. */
    ghost predicate Valid()
      reads this`symbolTable, this`scopeVec, this`scope, this`mostRecentTempVar, this`tempVarCount
      reads this`labelStack, this`tempLabelCount, this`subNodeList, this`nodeList
    {
      OnlyOpened(symbolTable, |scopeVec|) &&
      scope == ScopeAfter(scopeVec) &&
      mostRecentTempVar == RecentAfter(tempVarCount) &&
      (forall i :: 0 <= i < |labelStack| ==> labelStack[i] in Issued(tempLabelCount)) &&
      IsSuffix(subNodeList, nodeList)
    }

    /** The fields expression lowering reads and writes. */
    function LState(): LowerState
      reads this
    {
      LowerState(symbolTable, |scopeVec|, scope, fs, tempVarCount, mostRecentTempVar, nodeList, subNodeList)
    }

    /** The code generator's view of the driver. */
    function GenCtx(): Ctx
      reads this
    {
      Ctx(symbolTable, scopeVec, fs, scope)
    }

    constructor()
      ensures Valid()
      ensures scope == GlobalScope && scopeVec == [] && symbolTable == map[]
      ensures nodeList == [] && subNodeList == [] && liveNodeList == [] && treeStack == [] && labelStack == []
      ensures fs == [] && functionMap == map[] && tinyStream == []
      ensures tempVarCount == 0 && tempLabelCount == 0 && mostRecentTempVar == NoTempYet
      ensures curNode == ClearedNode && !returnExpr && !liveness
    {
      symbolTable := map[];
      functionMap := map[];
      scope := GlobalScope;
      nodeList := [];
      curNode := ClearedNode;
      treeStack := [];
      mostRecentTempVar := NoTempYet;
      labelStack := [];
      fs := [];
      returnExpr := false;
      subNodeList := [];
      liveNodeList := [];
      scopeVec := [];
      tempVarCount := 0;
      tempLabelCount := 0;
      tinyStream := [];
      liveness := false;
    }

    method SetLiveness(l: bool)
      modifies this`liveness
      ensures liveness == l
    {
      liveness := l;
    }

    // -------------------------------------------------------------------
    // The symbol table

    /** setScope: the scope becomes current, is numbered one past the
     *  scopes before it, and starts out empty. */
    method SetScope(theScope: string)
      modifies this`scope, this`scopeVec, this`symbolTable
      requires Valid()
      ensures Valid()
      ensures scope == theScope && scopeVec == old(scopeVec) + [theScope]
      ensures symbolTable == old(symbolTable)[|scopeVec| := []]
    {
      scope := theScope;
      scopeVec := scopeVec + [scope];
      OnlyOpenedUpdate(symbolTable, |scopeVec|, |scopeVec|, []);
      symbolTable := symbolTable[|scopeVec| := []];
    }

    /** insertSymbolTableEntry: the entry goes to the end of the newest
     *  scope, with the storage name the current scope gives it. */
    method InsertSymbolTableEntry(ty: LittleType, ident: string, value: string)
      modifies this`symbolTable
      requires Valid()
      ensures Valid()
      ensures symbolTable == Insert(old(symbolTable), |scopeVec|, scope, ty, ident, value)
    {
      var es := Lookup(symbolTable, |scopeVec|);
      var altName := "";
      if scope != GlobalScope {
        if Contains(ident, TempVarPrefix) {
          ContainsLength(ident, TempVarPrefix);
          altName := "r" + ident[TempVarLen..];
        } else {
          altName := LocalSlot(|es| + 1);
        }
      }
      OnlyOpenedUpdate(symbolTable, |scopeVec|, |scopeVec|, es + [VarEntry(ty, ident, value, altName)]);
      symbolTable := symbolTable[|scopeVec| := es + [VarEntry(ty, ident, value, altName)]];
    }

    /** modifyTempVarAltNames(f): the temporaries of f's scope, in order,
     *  take the local slots after its locals. */
    method ModifyTempVarAltNames(f: FuncRecord)
      modifies this`symbolTable
      ensures symbolTable == RenumberTemps(old(symbolTable), scopeVec, f.name)
    {
      var k := FindScope(scopeVec, f.name);
      var numScope := if k == -1 then 0 else k;
      if numScope in symbolTable {
        var renamed := RenumberLoop(symbolTable[numScope], NumLocals(symbolTable, scopeVec, f.name) + 1);
        symbolTable := symbolTable[numScope := renamed];
      }
    }

    // -------------------------------------------------------------------
    // The function list

    /** createFunction: a new record with the given name goes last. */
    method CreateFunction(name: string)
      modifies this`fs
      ensures fs == old(fs) + [NewFunction(name)]
    {
      fs := fs + [NewFunction(name)];
    }

    /** addParamToFunc: the last record gains the parameter in the next
     *  stack slot. */
    method AddParamToFunc(name: string, ty: LittleType)
      modifies this`fs
      requires |fs| > 0
      ensures fs == old(fs)[|old(fs)| - 1 := AddParam(old(fs)[|old(fs)| - 1], name, ty)]
    {
      var k := |fs| - 1;
      var f := fs[k];
      var theVar := VarEntry(ty, name, "", ParamSlot(StackOffset + |f.params|));
      fs := fs[k := f.(params := f.params + [theVar])];
    }

    /** addReturnToFunc: the last record gets its return type and the slot
     *  above its parameters. */
    method AddReturnToFunc(ty: LittleType)
      modifies this`fs
      requires |fs| > 0
      ensures fs == old(fs)[|old(fs)| - 1 := AddReturn(old(fs)[|old(fs)| - 1], ty)]
    {
      var k := |fs| - 1;
      fs := fs[k := fs[k].(retType := ty, retLoc := ParamSlot(StackOffset + |fs[k].params|))];
    }

    /** addRetVal: the last record's return values gain id at the end. */
    method AddRetVal(id: string)
      modifies this`fs
      requires |fs| > 0
      ensures |fs| == |old(fs)| && fs[..|fs| - 1] == old(fs)[..|fs| - 1]
      ensures fs[|fs| - 1] == old(fs)[|fs| - 1].(retVals := old(fs)[|fs| - 1].retVals + [id])
    {
      var k := |fs| - 1;
      fs := fs[k := fs[k].(retVals := fs[k].retVals + [id])];
    }

    /** findFuncData(s, f): the first record named s, or f when none is. */
    method FindFuncData(s: string, f: FuncRecord) returns (g: FuncRecord)
      ensures g == FindFuncOr(fs, s, f)
    {
      var i := 0;
      while i < |fs|
        invariant 0 <= i <= |fs|
        invariant forall j :: 0 <= j < i ==> fs[j].name != s
      {
        if fs[i].name == s {
          FindIndexAt(fs, s, i);
          return fs[i];
        }
        i := i + 1;
      }
      return f;
    }

    /** overwriteFuncData(f): the first record with f's name becomes f. */
    method OverwriteFuncData(f: FuncRecord)
      modifies this`fs
      ensures fs == Overwrite(old(fs), f)
    {
      var i := 0;
      while i < |fs|
        invariant 0 <= i <= |fs|
        invariant forall j :: 0 <= j < i ==> fs[j].name != f.name
      {
        if fs[i].name == f.name {
          FindIndexAt(fs, f.name, i);
          fs := fs[i := f];
          return;
        }
        i := i + 1;
      }
    }

    // -------------------------------------------------------------------
    // Building the IR

    /** generateLabel: the next label, which is pushed on labelStack and is
     *  none of the labels already there. */
    method GenerateLabel() returns (l: string)
      modifies this`tempLabelCount, this`labelStack
      requires Valid()
      ensures Valid()
      ensures l == LabelName(old(tempLabelCount)) && tempLabelCount == old(tempLabelCount) + 1
      ensures labelStack == old(labelStack) + [l] && l !in old(labelStack)
    {
      l := LabelName(tempLabelCount);
      forall i | 0 <= i < |labelStack|
        ensures labelStack[i] != l
      {
        assert labelStack[i] in Issued(tempLabelCount);
        var k: nat :| k < tempLabelCount && labelStack[i] == LabelName(k);
        TempNamesDistinct(k, tempLabelCount);
      }
      tempLabelCount := tempLabelCount + 1;
      labelStack := labelStack + [l];
    }

    /** createTempVar: the next temporary, declared in the newest scope. */
    method CreateTempVar(ty: LittleType) returns (name: string)
      modifies this`symbolTable, this`tempVarCount, this`mostRecentTempVar
      ensures LState() == CreateTemp(old(LState()), ty)
      ensures name == TempName(old(tempVarCount))
    {
      name := TempName(tempVarCount);
      var es := Lookup(symbolTable, |scopeVec|);
      symbolTable := symbolTable[|scopeVec| := es + [VarEntry(ty, name, "", AltNameFor(scope, name, |es|))]];
      tempVarCount := tempVarCount + 1;
      mostRecentTempVar := name;
    }

    /** pushBackCurNode: curNode, typed unless its opcode is exempt, goes to
     *  both lists and is cleared. */
    method PushBackCurNode()
      modifies this`nodeList, this`subNodeList, this`curNode
      requires Valid()
      ensures Valid()
      ensures nodeList == old(nodeList) + [Suffixed(old(LState()), old(curNode))]
      ensures subNodeList == old(subNodeList) + [Suffixed(old(LState()), old(curNode))]
      ensures curNode == ClearedNode
    {
      if curNode.opCode !in Unsuffixed {
        curNode := AdjustOpCode(LState(), curNode).0;
      }
      SuffixAppend(subNodeList, nodeList, [curNode]);
      nodeList := nodeList + [curNode];
      subNodeList := subNodeList + [curNode];
      curNode := ClearedNode;
    }

    /** pushParams(v): for each argument, a push per entry of the newest
     *  scope that declares it. */
    method PushParams(v: seq<string>)
      modifies this`nodeList, this`subNodeList
      requires Valid()
      ensures Valid()
      ensures nodeList == old(nodeList) + ParamPushes(Lookup(symbolTable, |scopeVec|), v)
      ensures subNodeList == old(subNodeList) + ParamPushes(Lookup(symbolTable, |scopeVec|), v)
    {
      var es := Lookup(symbolTable, |scopeVec|);
      var i := 0;
      while i < |v|
        invariant 0 <= i <= |v|
        invariant nodeList == old(nodeList) + ParamPushes(es, v[..i])
        invariant subNodeList == old(subNodeList) + ParamPushes(es, v[..i])
      {
        assert v[..i + 1][..i] == v[..i];
        PushArgument(es, v[i]);
        i := i + 1;
      }
      assert v[..i] == v;
      SuffixAppend(old(subNodeList), old(nodeList), ParamPushes(es, v));
    }

    /** pushParams's inner loop for argument x: a push per entry of es
     *  that declares it. */
    method PushArgument(es: seq<VarEntry>, x: string)
      modifies this`nodeList, this`subNodeList
      ensures nodeList == old(nodeList) + PushesFor(es, x)
      ensures subNodeList == old(subNodeList) + PushesFor(es, x)
    {
      var j := 0;
      while j < |es|
        invariant 0 <= j <= |es|
        invariant nodeList == old(nodeList) + PushesFor(es[..j], x)
        invariant subNodeList == old(subNodeList) + PushesFor(es[..j], x)
      {
        assert es[..j + 1][..j] == es[..j];
        if x == es[j].identifier {
          nodeList := nodeList + [PushNode(es[j].identifier)];
          subNodeList := subNodeList + [PushNode(es[j].identifier)];
        }
        j := j + 1;
      }
      assert es[..j] == es;
    }

    /** popParams(s): s pops into nothing (none when s is not positive). */
    method PopParams(s: int)
      modifies this`nodeList, this`subNodeList
      requires Valid()
      ensures Valid()
      ensures nodeList == old(nodeList) + seq(if s > 0 then s else 0, _ => PopNode)
      ensures subNodeList == old(subNodeList) + seq(if s > 0 then s else 0, _ => PopNode)
    {
      var i := 0;
      while i < s
        invariant 0 <= i <= (if s > 0 then s else 0)
        invariant nodeList == old(nodeList) + seq(i, _ => PopNode)
        invariant subNodeList == old(subNodeList) + seq(i, _ => PopNode)
      {
        assert seq(i + 1, _ => PopNode) == seq(i, _ => PopNode) + [PopNode];
        nodeList := nodeList + [PopNode];
        subNodeList := subNodeList + [PopNode];
        i := i + 1;
      }
      SuffixAppend(old(subNodeList), old(nodeList), seq(i, _ => PopNode));
    }

    /** popRetVal: a pop into the last function's assignment target. */
    method PopRetVal()
      modifies this`nodeList, this`subNodeList
      requires Valid() && |fs| > 0
      ensures Valid()
      ensures nodeList == old(nodeList) + [IRNode("POP", "", "", fs[|fs| - 1].assVar, NoMarker)]
      ensures subNodeList == old(subNodeList) + [IRNode("POP", "", "", fs[|fs| - 1].assVar, NoMarker)]
    {
      var n := IRNode("POP", "", "", fs[|fs| - 1].assVar, NoMarker);
      SuffixAppend(subNodeList, nodeList, [n]);
      nodeList := nodeList + [n];
      subNodeList := subNodeList + [n];
    }

    // -------------------------------------------------------------------
    // interpretTree

    /** One reduction a op b: the node is typed, its result is a new
     *  temporary, and it goes to both lists. */
    method EmitReduction(op: string, a: string, b: string) returns (tmp: string)
      modifies this`symbolTable, this`tempVarCount, this`mostRecentTempVar, this`nodeList, this`subNodeList
      ensures LState() == Reduce(old(LState()), op, a, b)
      ensures tmp == mostRecentTempVar
    {
      var (n, ty) := AdjustOpCode(LState(), IRNode(op, a, b, "", NoMarker));
      tmp := CreateTempVar(ty);
      n := n.(result := tmp);
      nodeList := nodeList + [n];
      subNodeList := subNodeList + [n];
    }

    /** One operator loop of interpretTree over the buffer s: each operator
     *  of ops and its two neighbours are replaced, in place, by the
     *  temporary of their reduction, and the scan goes on after it. */
    method OperatorPass(s: seq<string>, ops: set<string>) returns (r: seq<string>)
      modifies this`symbolTable, this`tempVarCount, this`mostRecentTempVar, this`nodeList, this`subNodeList
      ensures (LState(), r) == Pass(old(LState()), ops, [], s)
    {
      r := s;
      var i := 0;
      while i < |r|
        invariant 0 <= i <= |r|
        invariant Pass(old(LState()), ops, [], s) == Pass(LState(), ops, r[..i], r[i..])
        decreases |r| - i
      {
        if r[i] in ops && i > 0 && i + 1 < |r| {
          PassReduces(LState(), ops, r, i);
          var tmp := EmitReduction(r[i], r[i - 1], r[i + 1]);
          r := r[..i - 1] + [tmp] + r[i + 2..];
        } else {
          PassSkips(LState(), ops, r, i);
          i := i + 1;
        }
      }
      assert r[..i] == r && r[i..] == [];
    }

    /** interpretTree(theStack): every parenthesised group, outermost
     *  first, is lowered by a recursive call and replaced by the temporary
     *  that holds its value; then the MULT/DIV loop and the ADD/SUB loop. */
    method LowerTokens(s0: seq<string>) returns (s: seq<string>)
      modifies this`symbolTable, this`tempVarCount, this`mostRecentTempVar, this`nodeList, this`subNodeList
      ensures (LState(), s) == Lower(old(LState()), s0)
      decreases |s0|
    {
      s := s0;
      var subExpr := 0;
      var subStack: seq<string> := [];
      var numOps: nat := 0;
      var i := 0;
      while i < |s|
        invariant i <= |s| <= |s0| && numOps <= i && |subStack| <= numOps
        invariant GroupScan(old(LState()), s0, 0, 0, [], 0) == GroupScan(LState(), s, i, subExpr, subStack, numOps)
        decreases |s|, |s| - i
      {
        if s[i] == "(" {
          subExpr := subExpr + 1;
        } else if s[i] == ")" {
          subExpr := subExpr - 1;
          if subExpr == 0 {
            var _ := LowerTokens(subStack);
            var p := i - numOps;
            s := s[..p] + [mostRecentTempVar] + s[i + 1..];
            subStack := [];
            numOps := 0;
            i := p;
          }
        }
        if subExpr != 0 {
          if s[i] != "(" || subExpr > 1 {
            subStack := subStack + [s[i]];
          }
          numOps := numOps + 1;
        }
        i := i + 1;
      }
      s := OperatorPass(s, MulOps);
      s := OperatorPass(s, AddOps);
    }

    /** interpretTree on treeStack: the expression is lowered to nodes on
     *  both lists, each a typed reduction into a fresh temporary of the
     *  current scope, and the driver's invariant is kept. */
    method InterpretTree()
      modifies this`treeStack, this`symbolTable, this`tempVarCount, this`mostRecentTempVar, this`nodeList, this`subNodeList
      requires Valid()
      ensures Valid()
      ensures (LState(), treeStack) == Lower(old(LState()), old(treeStack))
      ensures Extends(old(LState()), LState())
    {
      LowerExtends(LState(), treeStack);
      ExtendsKeepsDriver(LState(), Lower(LState(), treeStack).0);
      treeStack := LowerTokens(treeStack);
    }

    // -------------------------------------------------------------------
    // Liveness analysis

    /** functionalLiveness on the map's entry for name, which the source
     *  passes by reference: given the analysis a that LiveFunction computes
     *  for the entry, the symbol table and the function list become a's
     *  and the entry becomes a's node list. */
    method FunctionalLiveness(name: string, ghost a: Analysed)
      modifies this`symbolTable, this`fs, this`functionMap
      requires name in functionMap && functionMap[name] != []
      requires LiveFunction(symbolTable, scopeVec, fs, functionMap[name]) == Some(a)
      ensures symbolTable == a.table && fs == a.fs && functionMap == old(functionMap)[name := a.nodes]
    {
      var nodes := functionMap[name];
      var f, liveVec := PrepareLiveness(nodes);
      var out;
      out, f := RegisterAllocation(liveVec, nodes, f);
      OverwriteFuncData(f);
      functionMap := functionMap[name := out];
    }

    /** The first half of functionalLiveness: the function's record, its
     *  temporaries renumbered, and the backward walk's live lists. */
    method PrepareLiveness(nodes: seq<IRNode>) returns (f: FuncRecord, liveVec: seq<seq<string>>)
      modifies this`symbolTable
      requires |nodes| > 0
      requires LiveVec(LiveCtx(RenumberTemps(symbolTable, scopeVec, FunctionOf(fs, nodes).name), fs, FunctionName(nodes)),
                       nodes, MarkTop).Some?
      ensures f == FunctionOf(fs, nodes) && symbolTable == RenumberTemps(old(symbolTable), scopeVec, f.name)
      ensures liveVec == LiveVec(LiveCtx(symbolTable, fs, FunctionName(nodes)), nodes, MarkTop).value
    {
      f := FindFuncData(nodes[0].result, NewFunction(""));
      ModifyTempVarAltNames(f);
      liveVec := LiveWalk(LiveCtx(symbolTable, fs, nodes[0].result), nodes, MarkTop);
    }

    /** The fields performLivenessAnalysis carries from one function to
     *  the next. */
    function Live(): LiveState
      reads this
    {
      LiveState(symbolTable, fs, functionMap, liveNodeList)
    }

    /** performLivenessAnalysis: with liveness on, every function of the
     *  map, in key order, is analysed in place and appended to
     *  liveNodeList; with it off nothing changes. */
    method PerformLivenessAnalysis()
      modifies this`symbolTable, this`fs, this`functionMap, this`liveNodeList
      requires Valid()
      requires liveness ==> AnalyseAll(scopeVec, Live(), InKeyOrder(functionMap.Keys)).Some?
      ensures Valid()
      ensures !liveness ==> Live() == old(Live())
      ensures liveness ==> Some(Live()) == AnalyseAll(scopeVec, old(Live()), InKeyOrder(old(functionMap).Keys))
    {
      if !liveness {
        return;
      }
      ghost var s0 := Live();
      var keys := SortedKeys(functionMap);
      var i := 0;
      while i < |keys|
        invariant 0 <= i <= |keys| && AnalyseAll(scopeVec, s0, keys[..i]) == Some(Live())
      {
        ghost var a := AnalyseTurn(scopeVec, s0, keys, i, Live());
        AnalyseNext(keys[i], a);
        i := i + 1;
      }
      assert keys[..i] == keys;
      AnalyseAllOpened(scopeVec, s0, keys, |scopeVec|);
    }

    /** One turn of performLivenessAnalysis's loop: functionalLiveness on
     *  the map's entry for name, and the entry, as analysed, appended to
     *  liveNodeList. */
    method AnalyseNext(name: string, ghost a: Analysed)
      modifies this`symbolTable, this`fs, this`functionMap, this`liveNodeList
      requires name in functionMap && functionMap[name] != []
      requires LiveFunction(symbolTable, scopeVec, fs, functionMap[name]) == Some(a)
      ensures Live() == LiveState(a.table, a.fs, old(functionMap)[name := a.nodes], old(liveNodeList) + a.nodes)
    {
      FunctionalLiveness(name, a);
      liveNodeList := liveNodeList + functionMap[name];
    }

    // -------------------------------------------------------------------
    // Code generation

    /** tinyGeneration: tinyStream becomes the program for nodeList, or for
     *  liveNodeList when liveness is on. */
    method TinyGeneration()
      modifies this`tinyStream
      requires Program(GenCtx(), if liveness then liveNodeList else nodeList).Some?
      ensures tinyStream == Lines(Program(GenCtx(), if liveness then liveNodeList else nodeList).value)
    {
      ghost var p := Program(GenCtx(), if liveness then liveNodeList else nodeList).value;
      var out := DeclareGlobals(Lookup(symbolTable, 0));
      ghost var decls := out;
      out := out + [Instr("push", [])];
      var regs := PushRegisters();
      out := out + regs + [Instr("jsr", ["main"]), Instr("sys", ["halt"])];
      assert out == decls + Prologue();
      var code;
      if !liveness {
        code := GenerateNormalCode(GenCtx(), nodeList);
      } else {
        code := GenerateNormalCode(GenCtx(), liveNodeList);
      }
      out := out + code + [Instr("end", [])];
      assert out == p;
      tinyStream := Lines(out);
    }
  }
}
