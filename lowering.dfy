/** Lowering of an expression's token buffer to three-address nodes
 *  (driver.cpp interpretTree, createTempVar, adjustIROpCode,
 *  pushBackCurNode): parenthesised groups first, innermost out, then every
 *  MULT and DIV left to right, then every ADD and SUB left to right; each
 *  reduction emits one node whose result is a fresh temporary. */
module Lowering {
  import opened Text
  import opened Records
  import opened Functions
  import opened Symbols

  /** The part of the driver that lowering reads and writes: the symbol
   *  table, the current scope (its name and depth), the function list, the
   *  temporary counter, mostRecentTempVar, nodeList and subNodeList. */
  datatype LowerState = LowerState(
    table: SymbolTable,
    depth: nat,
    scope: string,
    fs: seq<FuncRecord>,
    tempCount: nat,
    recent: string,
    nodes: seq<IRNode>,
    sub: seq<IRNode>)

  const ArithOps: set<string> := {"ADD", "SUB", "MULT", "DIV"}
  const MulOps: set<string> := {"MULT", "DIV"}
  const AddOps: set<string> := {"ADD", "SUB"}

  /** The opcodes pushBackCurNode leaves without a type suffix. */
  const Unsuffixed: set<string> := {"GE", "LE", "NE", "LABEL", "JUMP", "RETURN", "LINK", "PUSH", "POP", "JSR"}

  function TypeSuffix(ty: LittleType): string {
    match ty
    case FLOAT => "F"
    case INT => "I"
    case _ => ""
  }

  function TypeOfNode(st: LowerState, n: IRNode): LittleType {
    TypeOf(st.table, st.depth, st.fs, st.scope, n)
  }

  /** adjustIROpCode: a FLOAT node gains "F", an INT node "I"; any other
   *  node keeps its opcode and is reported as STRING. */
  function AdjustOpCode(st: LowerState, n: IRNode): (r: (IRNode, LittleType))
    ensures r.1 != VOID
    ensures r.0 == n.(opCode := n.opCode + TypeSuffix(r.1))
    ensures (r.1 == FLOAT <==> TypeOfNode(st, n) == FLOAT) && (r.1 == INT <==> TypeOfNode(st, n) == INT)
  {
    var ty := TypeOfNode(st, n);
    if ty == FLOAT then (n.(opCode := n.opCode + "F"), FLOAT)
    else if ty == INT then (n.(opCode := n.opCode + "I"), INT)
    else (n, STRING)
  }

  /** The node pushBackCurNode appends: suffixed unless its opcode is a
   *  comparison, label, jump, return, link, push, pop or call. */
  function Suffixed(st: LowerState, n: IRNode): (m: IRNode)
    ensures n.opCode in Unsuffixed ==> m == n
    ensures n.opCode !in Unsuffixed ==> m == AdjustOpCode(st, n).0
  {
    if n.opCode in Unsuffixed then n else AdjustOpCode(st, n).0
  }

  /** createTempVar: the next temporary is declared in the current scope and
   *  becomes the most recent one. */
  function CreateTemp(st: LowerState, ty: LittleType): (st': LowerState)
    ensures st'.recent == TempName(st.tempCount) && st'.tempCount == st.tempCount + 1
    ensures st'.table == Insert(st.table, st.depth, st.scope, ty, TempName(st.tempCount), "")
    ensures st'.nodes == st.nodes && st'.sub == st.sub && st'.depth == st.depth && st'.scope == st.scope && st'.fs == st.fs
  {
    var name := TempName(st.tempCount);
    st.(table := Insert(st.table, st.depth, st.scope, ty, name, ""), tempCount := st.tempCount + 1, recent := name)
  }

  /** Inside a function a temporary is stored in the register-named slot of
   *  its number; at global scope it has no storage name. */
  lemma TempAltName(scope: string, n: nat, pos: nat)
    ensures AltNameFor(scope, TempName(n), pos) == if scope == GlobalScope then "" else RegName(n)
  {
  }

  /** One reduction a op b: the node, typed and suffixed, with a fresh
   *  temporary as result, appended to both node lists. */
  function Reduce(st: LowerState, op: string, a: string, b: string): LowerState {
    var (n, ty) := AdjustOpCode(st, IRNode(op, a, b, "", NoMarker));
    var st1 := CreateTemp(st, ty);
    var n1 := n.(result := st1.recent);
    st1.(nodes := st1.nodes + [n1], sub := st1.sub + [n1])
  }

  /** One pass over the buffer for the operators in ops, left to right: acc
   *  holds the tokens already passed, rest those still to visit. An
   *  operator with no left or no right neighbour, which the source reads out
   *  of bounds for, is left in place. */
  function Pass(st: LowerState, ops: set<string>, acc: seq<string>, rest: seq<string>): (LowerState, seq<string>)
    decreases |rest|
  {
    if rest == [] then (st, acc)
    else if rest[0] in ops && |acc| > 0 && |rest| > 1 then
      var st1 := Reduce(st, rest[0], acc[|acc| - 1], rest[1]);
      Pass(st1, ops, acc[..|acc| - 1] + [st1.recent], rest[2..])
    else Pass(st, ops, acc + [rest[0]], rest[1..])
  }

  /** The parenthesis loop of interpretTree from index i of the buffer s,
   *  with the loop's own variables: the nesting depth subExpr, the tokens of
   *  the open group subStack and the number of tokens numOps since the
   *  group opened. When a group closes it is lowered on its own and
   *  replaced, parentheses included, by the most recent temporary. */
  function GroupScan(st: LowerState, s: seq<string>, i: nat, subExpr: int, subStack: seq<string>, numOps: nat): (LowerState, seq<string>)
    requires i <= |s| && numOps <= i && |subStack| <= numOps
    decreases |s|, 1, |s| - i
  {
    if i == |s| then (st, s)
    else
      var tok := s[i];
      var d := if tok == "(" then subExpr + 1 else if tok == ")" then subExpr - 1 else subExpr;
      if tok == ")" && d == 0 then
        var st1 := Lower(st, subStack).0;
        var p := i - numOps;
        GroupScan(st1, s[..p] + [st1.recent] + s[i + 1..], p + 1, 0, [], 0)
      else if d != 0 then
        var sub' := if tok != "(" || d > 1 then subStack + [tok] else subStack;
        GroupScan(st, s, i + 1, d, sub', numOps + 1)
      else GroupScan(st, s, i + 1, d, subStack, numOps)
  }

  /** interpretTree(theStack, lastTouched): the new state and the reduced
   *  buffer; lastTouched is the state's most recent temporary. */
  function Lower(st: LowerState, s: seq<string>): (LowerState, seq<string>)
    decreases |s|, 2
  {
    var (st1, g) := GroupScan(st, s, 0, 0, [], 0);
    Passes(st1, g)
  }

  /** The two operator passes of interpretTree: MULT and DIV, then ADD and SUB. */
  function Passes(st: LowerState, g: seq<string>): (LowerState, seq<string>) {
    var (st2, m) := Pass(st, MulOps, [], g);
    Pass(st2, AddOps, [], m)
  }

  /** A reduction's opcode: one of the four operators with the suffix of ty. */
  predicate ArithOpFor(opCode: string, ty: LittleType) {
    opCode == "ADD" + TypeSuffix(ty) || opCode == "SUB" + TypeSuffix(ty) ||
    opCode == "MULT" + TypeSuffix(ty) || opCode == "DIV" + TypeSuffix(ty)
  }

  /** The node n and the entry e are what a reduction with temporary number
   *  c makes: the temporary is n's result, is declared with the type n's
   *  opcode is suffixed for, and has the storage name of its number. */
  ghost predicate Made(scope: string, n: IRNode, e: VarEntry, c: nat) {
    n.result == TempName(c) && n.ifFlags == NoMarker && ArithOpFor(n.opCode, e.ty) &&
    e == VarEntry(e.ty, TempName(c), "", if scope == GlobalScope then "" else RegName(c)) && e.ty != VOID
  }

  /** The nodes ns and the entries es are what consecutive reductions make,
   *  with temporaries numbered on from c. */
  ghost predicate AllMade(scope: string, ns: seq<IRNode>, es: seq<VarEntry>, c: nat) {
    |ns| == |es| && forall j :: 0 <= j < |ns| ==> Made(scope, ns[j], es[j], c + j)
  }

  lemma AllMadeAppend(scope: string, ns1: seq<IRNode>, es1: seq<VarEntry>, ns2: seq<IRNode>, es2: seq<VarEntry>, c: nat)
    requires AllMade(scope, ns1, es1, c) && AllMade(scope, ns2, es2, c + |ns1|)
    ensures AllMade(scope, ns1 + ns2, es1 + es2, c)
  {
    forall j | 0 <= j < |ns1 + ns2|
      ensures Made(scope, (ns1 + ns2)[j], (es1 + es2)[j], c + j)
    {
      if j >= |ns1| {
        assert Made(scope, ns2[j - |ns1|], es2[j - |ns1|], c + |ns1| + (j - |ns1|));
      }
    }
  }

  /** s' is s with k more elements at the end. */
  ghost predicate GrowsBy<T>(s: seq<T>, s': seq<T>, k: nat) {
    |s'| == |s| + k && s'[..|s|] == s
  }

  lemma GrowsByTrans<T>(a: seq<T>, b: seq<T>, c: seq<T>, k1: nat, k2: nat)
    requires GrowsBy(a, b, k1) && GrowsBy(b, c, k2)
    ensures GrowsBy(a, c, k1 + k2)
    ensures c[|a|..] == b[|a|..] + c[|b|..]
  {
    assert c[..|a|] == c[..|b|][..|a|];
    assert c == b + c[|b|..];
  }

  /** The number of reductions between st and st'. */
  function Reductions(st: LowerState, st': LowerState): int {
    st'.tempCount - st.tempCount
  }

  ghost predicate SameScope(st: LowerState, st': LowerState) {
    st'.depth == st.depth && st'.scope == st.scope && st'.fs == st.fs && st.tempCount <= st'.tempCount
  }

  /** The nodes of st' are those of st and one more per reduction, in both lists. */
  ghost predicate NodesGrow(st: LowerState, st': LowerState)
    requires SameScope(st, st')
  {
    GrowsBy(st.nodes, st'.nodes, Reductions(st, st')) && st'.sub == st.sub + st'.nodes[|st.nodes|..]
  }

  /** The current scope of st' is that of st and one more entry per
   *  reduction; every other scope is as it was. */
  ghost predicate TableGrows(st: LowerState, st': LowerState)
    requires SameScope(st, st')
  {
    GrowsBy(Lookup(st.table, st.depth), Lookup(st'.table, st.depth), Reductions(st, st')) &&
    forall q :: q != st.depth ==> Lookup(st'.table, q) == Lookup(st.table, q)
  }

  /** The appended nodes and entries are what the reductions make. */
  ghost predicate ReductionsMade(st: LowerState, st': LowerState)
    requires SameScope(st, st') && NodesGrow(st, st') && TableGrows(st, st')
  {
    AllMade(st.scope, st'.nodes[|st.nodes|..], Lookup(st'.table, st.depth)[|Lookup(st.table, st.depth)|..], st.tempCount)
  }

  /** The most recent temporary of st' is the last one made, if any was. */
  ghost predicate RecentIsLast(st: LowerState, st': LowerState) {
    (st'.tempCount == st.tempCount ==> st'.recent == st.recent) &&
    (st'.tempCount > st.tempCount ==> st'.recent == TempName(st'.tempCount - 1))
  }

  /** st' is st after some reductions: one node and one temporary each, the
   *  temporaries numbered on from st.tempCount and declared in the current
   *  scope in that order, the nodes appended to both lists, nothing else
   *  touched. */
  ghost predicate Extends(st: LowerState, st': LowerState) {
    SameScope(st, st') && NodesGrow(st, st') && TableGrows(st, st') && ReductionsMade(st, st') && RecentIsLast(st, st')
  }

  lemma ExtendsRefl(st: LowerState)
    ensures Extends(st, st)
  {
  }

  lemma NodesGrowTrans(a: LowerState, b: LowerState, c: LowerState)
    requires SameScope(a, b) && SameScope(b, c) && NodesGrow(a, b) && NodesGrow(b, c)
    ensures SameScope(a, c) && NodesGrow(a, c)
    ensures c.nodes[|a.nodes|..] == b.nodes[|a.nodes|..] + c.nodes[|b.nodes|..]
  {
    GrowsByTrans(a.nodes, b.nodes, c.nodes, Reductions(a, b), Reductions(b, c));
  }

  lemma TableGrowsTrans(a: LowerState, b: LowerState, c: LowerState)
    requires SameScope(a, b) && SameScope(b, c) && TableGrows(a, b) && TableGrows(b, c)
    ensures SameScope(a, c) && TableGrows(a, c)
    ensures Lookup(c.table, a.depth)[|Lookup(a.table, a.depth)|..] ==
            Lookup(b.table, a.depth)[|Lookup(a.table, a.depth)|..] + Lookup(c.table, a.depth)[|Lookup(b.table, a.depth)|..]
  {
    GrowsByTrans(Lookup(a.table, a.depth), Lookup(b.table, a.depth), Lookup(c.table, a.depth), Reductions(a, b), Reductions(b, c));
  }

  lemma ReductionsMadeTrans(a: LowerState, b: LowerState, c: LowerState)
    requires SameScope(a, b) && SameScope(b, c) && SameScope(a, c)
    requires NodesGrow(a, b) && NodesGrow(b, c) && NodesGrow(a, c)
    requires TableGrows(a, b) && TableGrows(b, c) && TableGrows(a, c)
    requires ReductionsMade(a, b) && ReductionsMade(b, c)
    requires c.nodes[|a.nodes|..] == b.nodes[|a.nodes|..] + c.nodes[|b.nodes|..]
    requires Lookup(c.table, a.depth)[|Lookup(a.table, a.depth)|..] ==
             Lookup(b.table, a.depth)[|Lookup(a.table, a.depth)|..] + Lookup(c.table, a.depth)[|Lookup(b.table, a.depth)|..]
    ensures ReductionsMade(a, c)
  {
    var ea, eb, ec := Lookup(a.table, a.depth), Lookup(b.table, a.depth), Lookup(c.table, a.depth);
    var ns1, ns2 := b.nodes[|a.nodes|..], c.nodes[|b.nodes|..];
    assert |ns1| == b.tempCount - a.tempCount;
    AllMadeAppend(a.scope, ns1, eb[|ea|..], ns2, ec[|eb|..], a.tempCount);
  }

  lemma ExtendsTrans(a: LowerState, b: LowerState, c: LowerState)
    requires Extends(a, b) && Extends(b, c)
    ensures Extends(a, c)
  {
    NodesGrowTrans(a, b, c);
    TableGrowsTrans(a, b, c);
    ReductionsMadeTrans(a, b, c);
  }

  /** The node one reduction appends, and the entry it declares. */
  lemma ReduceShape(st: LowerState, op: string, a: string, b: string)
    ensures var r := AdjustOpCode(st, IRNode(op, a, b, "", NoMarker));
            var st' := Reduce(st, op, a, b);
            var es := Lookup(st.table, st.depth);
            SameScope(st, st') && Reductions(st, st') == 1 &&
            st'.nodes == st.nodes + [r.0.(result := TempName(st.tempCount))] &&
            st'.sub == st.sub + [r.0.(result := TempName(st.tempCount))] &&
            Lookup(st'.table, st.depth) == es + [VarEntry(r.1, TempName(st.tempCount), "", AltNameFor(st.scope, TempName(st.tempCount), |es|))] &&
            (forall q :: q != st.depth ==> Lookup(st'.table, q) == Lookup(st.table, q)) &&
            st'.recent == TempName(st.tempCount)
  {
  }

  /** One reduction extends the state by exactly one node, whose operands are
   *  the reduction's neighbours and whose opcode starts with the operator. */
  lemma ReduceExtends(st: LowerState, op: string, a: string, b: string)
    requires op in ArithOps
    ensures Extends(st, Reduce(st, op, a, b))
    ensures Reduce(st, op, a, b).tempCount == st.tempCount + 1
    ensures Reduce(st, op, a, b).nodes[|st.nodes|].op1 == a && Reduce(st, op, a, b).nodes[|st.nodes|].op2 == b
    ensures StartsWith(Reduce(st, op, a, b).nodes[|st.nodes|].opCode, op)
  {
    var r := AdjustOpCode(st, IRNode(op, a, b, "", NoMarker));
    ReduceShape(st, op, a, b);
    ShapeExtends(st, Reduce(st, op, a, b), op, a, b, r.0, r.1);
  }

  /** ReduceExtends for a state already known to have the shape of one
   *  reduction. */
  lemma ShapeExtends(st: LowerState, st': LowerState, op: string, a: string, b: string, n: IRNode, ty: LittleType)
    requires op in ArithOps && ty != VOID
    requires n == IRNode(op + TypeSuffix(ty), a, b, "", NoMarker)
    requires var es := Lookup(st.table, st.depth);
             SameScope(st, st') && Reductions(st, st') == 1 &&
             st'.nodes == st.nodes + [n.(result := TempName(st.tempCount))] &&
             st'.sub == st.sub + [n.(result := TempName(st.tempCount))] &&
             Lookup(st'.table, st.depth) == es + [VarEntry(ty, TempName(st.tempCount), "", AltNameFor(st.scope, TempName(st.tempCount), |es|))] &&
             (forall q :: q != st.depth ==> Lookup(st'.table, q) == Lookup(st.table, q)) &&
             st'.recent == TempName(st.tempCount)
    ensures Extends(st, st') && st'.tempCount == st.tempCount + 1
    ensures st'.nodes[|st.nodes|].op1 == a && st'.nodes[|st.nodes|].op2 == b
    ensures StartsWith(st'.nodes[|st.nodes|].opCode, op)
  {
    var es := Lookup(st.table, st.depth);
    var es' := Lookup(st'.table, st.depth);
    var n1 := n.(result := TempName(st.tempCount));
    assert NodesGrow(st, st') by {
      assert st'.nodes[|st.nodes|..] == [n1];
    }
    assert TableGrows(st, st');
    assert ReductionsMade(st, st') by {
      TempAltName(st.scope, st.tempCount, |es|);
      assert Made(st.scope, n1, es'[|es|], st.tempCount);
      assert st'.nodes[|st.nodes|..] == [n1];
      assert es'[|es|..] == [es'[|es|]];
    }
    assert StartsWith(n1.opCode, op) by {
      ContainsOwnPrefix(op, TypeSuffix(ty));
      StartsWithIff(op + TypeSuffix(ty), op);
    }
  }

  /** A pass over an operator set extends the state. */
  lemma {:induction false} PassExtends(st: LowerState, ops: set<string>, acc: seq<string>, rest: seq<string>)
    requires ops <= ArithOps
    ensures Extends(st, Pass(st, ops, acc, rest).0)
    decreases |rest|
  {
    if rest == [] {
      ExtendsRefl(st);
    } else if rest[0] in ops && |acc| > 0 && |rest| > 1 {
      var st1 := Reduce(st, rest[0], acc[|acc| - 1], rest[1]);
      ReduceExtends(st, rest[0], acc[|acc| - 1], rest[1]);
      PassExtends(st1, ops, acc[..|acc| - 1] + [st1.recent], rest[2..]);
      ExtendsTrans(st, st1, Pass(st, ops, acc, rest).0);
    } else {
      PassExtends(st, ops, acc + [rest[0]], rest[1..]);
    }
  }

  /** The parenthesis loop extends the state. */
  lemma {:induction false} GroupScanExtends(st: LowerState, s: seq<string>, i: nat, subExpr: int, subStack: seq<string>, numOps: nat)
    requires i <= |s| && numOps <= i && |subStack| <= numOps
    ensures Extends(st, GroupScan(st, s, i, subExpr, subStack, numOps).0)
    decreases |s|, 1, |s| - i
  {
    if i == |s| {
      ExtendsRefl(st);
    } else {
      var tok := s[i];
      var d := if tok == "(" then subExpr + 1 else if tok == ")" then subExpr - 1 else subExpr;
      if tok == ")" && d == 0 {
        var st1 := Lower(st, subStack).0;
        var p := i - numOps;
        LowerExtends(st, subStack);
        GroupScanExtends(st1, s[..p] + [st1.recent] + s[i + 1..], p + 1, 0, [], 0);
        ExtendsTrans(st, st1, GroupScan(st, s, i, subExpr, subStack, numOps).0);
      } else if d != 0 {
        var sub' := if tok != "(" || d > 1 then subStack + [tok] else subStack;
        GroupScanExtends(st, s, i + 1, d, sub', numOps + 1);
      } else {
        GroupScanExtends(st, s, i + 1, d, subStack, numOps);
      }
    }
  }

  /** Lowering extends the state: every node it emits is a typed reduction
   *  whose result is a fresh temporary declared in the current scope. */
  lemma {:induction false} LowerExtends(st: LowerState, s: seq<string>)
    ensures Extends(st, Lower(st, s).0)
    decreases |s|, 2
  {
    var (st1, g) := GroupScan(st, s, 0, 0, [], 0);
    var (st2, m) := Pass(st1, MulOps, [], g);
    GroupScanExtends(st, s, 0, 0, [], 0);
    PassExtends(st1, MulOps, [], g);
    PassExtends(st2, AddOps, [], m);
    ExtendsTrans(st, st1, st2);
    ExtendsTrans(st, st2, Lower(st, s).0);
  }

  /** A token that is neither an operator nor a parenthesis. */
  predicate IsOperand(t: string) {
    t !in ArithOps && t != "(" && t != ")"
  }

  /** A temporary's name is an operand. */
  lemma TempIsOperand(n: nat)
    ensures IsOperand(TempName(n))
  {
  }

  /** A parenthesis-free expression buffer: operands at the even positions,
   *  operators at the odd ones, an operand at each end. */
  ghost predicate Alternating(s: seq<string>) {
    |s| % 2 == 1 && forall i :: 0 <= i < |s| ==> Fits(s[i], i % 2 == 0)
  }

  /** An operand where one is due, an operator elsewhere. */
  predicate Fits(t: string, operandDue: bool) {
    if operandDue then IsOperand(t) else t in ArithOps
  }

  /** In an alternating buffer an operator sits at an odd position, followed
   *  by an operand. */
  lemma OperatorPosition(s: seq<string>, k: nat)
    requires Alternating(s) && k < |s| && s[k] in ArithOps
    ensures k % 2 == 1 && 0 < k && k + 1 < |s|
  {
    assert Fits(s[k], k % 2 == 0);
  }

  /** The number of tokens of s that belong to ops. */
  function CountIn(s: seq<string>, ops: set<string>): (c: nat)
    ensures c <= |s|
  {
    if s == [] then 0 else (if s[0] in ops then 1 else 0) + CountIn(s[1..], ops)
  }

  lemma {:induction false} CountInAppend(a: seq<string>, b: seq<string>, ops: set<string>)
    ensures CountIn(a + b, ops) == CountIn(a, ops) + CountIn(b, ops)
  {
    if a != [] {
      assert (a + b)[1..] == a[1..] + b;
      CountInAppend(a[1..], b, ops);
    } else {
      assert a + b == b;
    }
  }

  /** Counting over two disjoint operator sets adds up. */
  lemma {:induction false} CountInUnion(s: seq<string>, o1: set<string>, o2: set<string>)
    requires o1 !! o2
    ensures CountIn(s, o1 + o2) == CountIn(s, o1) + CountIn(s, o2)
  {
    if s != [] {
      CountInUnion(s[1..], o1, o2);
    }
  }

  /** An alternating buffer has exactly (|s| - 1) / 2 operators. */
  lemma {:induction false} AlternatingOperators(s: seq<string>, i: nat)
    requires Alternating(s) && i <= |s|
    ensures CountIn(s[i..], ArithOps) == (|s| - i) / 2
    decreases |s| - i
  {
    if i < |s| {
      assert s[i..][1..] == s[i + 1..];
      AlternatingOperators(s, i + 1);
    }
  }

  /** The opcode of a reduction for one of the operators in ops, with any
   *  type suffix. */
  predicate OfOps(opCode: string, ops: set<string>) {
    ("MULT" in ops && (opCode == "MULT" || opCode == "MULTI" || opCode == "MULTF")) ||
    ("DIV" in ops && (opCode == "DIV" || opCode == "DIVI" || opCode == "DIVF")) ||
    ("ADD" in ops && (opCode == "ADD" || opCode == "ADDI" || opCode == "ADDF")) ||
    ("SUB" in ops && (opCode == "SUB" || opCode == "SUBI" || opCode == "SUBF"))
  }

  /** The nodes st' added after the first k nodes of st reduce operators of ops. */
  ghost predicate NewNodesOf(st': LowerState, k: nat, ops: set<string>) {
    forall j :: k <= j < |st'.nodes| ==> OfOps(st'.nodes[j].opCode, ops)
  }

  /** An operator with any type suffix is a reduction opcode for it. */
  lemma OfOpsSuffix(op: string, ty: LittleType, ops: set<string>)
    requires op in ops && ops <= ArithOps
    ensures OfOps(op + TypeSuffix(ty), ops)
  {
    assert op == "MULT" || op == "DIV" || op == "ADD" || op == "SUB";
  }

  /** A reduction's node reduces its own operator. */
  lemma ReduceOf(st: LowerState, op: string, a: string, b: string, ops: set<string>)
    requires op in ops && ops <= ArithOps
    ensures NewNodesOf(Reduce(st, op, a, b), |st.nodes|, ops)
  {
    ReduceShape(st, op, a, b);
    var r := AdjustOpCode(st, IRNode(op, a, b, "", NoMarker));
    OfOpsSuffix(op, r.1, ops);
  }

  /** The buffer after one reduction at the operator rest[0] still alternates. */
  lemma ReduceStepAlternates(acc: seq<string>, rest: seq<string>, t: string)
    requires Alternating(acc + rest) && |rest| > 0 && rest[0] in ArithOps && IsOperand(t)
    ensures |acc| % 2 == 1 && |rest| >= 2
    ensures Alternating(acc[..|acc| - 1] + [t] + rest[2..])
  {
    var s := acc + rest;
    var k := |acc|;
    assert s[k] == rest[0];
    OperatorPosition(s, k);
    var s' := acc[..k - 1] + [t] + rest[2..];
    forall i | 0 <= i < |s'|
      ensures Fits(s'[i], i % 2 == 0)
    {
      if i < k - 1 {
        assert s'[i] == s[i];
      } else if i >= k {
        assert s'[i] == s[i + 2];
      }
    }
  }

  /** The parenthesis loop leaves a buffer without parentheses untouched. */
  lemma {:induction false} GroupScanNoParens(st: LowerState, s: seq<string>, i: nat, numOps: nat)
    requires i <= |s| && numOps <= i
    requires forall j :: i <= j < |s| ==> s[j] != "(" && s[j] != ")"
    ensures GroupScan(st, s, i, 0, [], numOps) == (st, s)
    decreases |s| - i
  {
    if i < |s| {
      GroupScanNoParens(st, s, i + 1, numOps);
    }
  }

  /** An operand is counted by no operator set. */
  lemma OperandCount(t: string, ops: set<string>)
    requires IsOperand(t) && ops <= ArithOps
    ensures CountIn([t], ops) == 0
  {
    assert t !in ops;
  }

  /** The counts behind one reduction step of a pass. */
  lemma ReduceStepCounts(acc: seq<string>, rest: seq<string>, t: string, ops: set<string>, other: set<string>)
    requires ops <= ArithOps && other <= ArithOps && ops !! other
    requires |acc| > 0 && |rest| > 1 && CountIn(acc, ops) == 0 && rest[0] in ops && IsOperand(t)
    requires IsOperand(acc[|acc| - 1]) && IsOperand(rest[1])
    ensures CountIn(acc[..|acc| - 1] + [t], ops) == 0
    ensures CountIn(acc[..|acc| - 1] + [t] + rest[2..], other) == CountIn(acc + rest, other)
    ensures CountIn(rest, ops) == 1 + CountIn(rest[2..], ops)
  {
    ReduceSwapCount(acc, t, ops);
    ReduceOtherCount(acc, rest, t, ops, other);
    ReduceRestCount(rest, ops);
  }

  /** Swapping an operand for another keeps the count of ops. */
  lemma ReduceSwapCount(acc: seq<string>, t: string, ops: set<string>)
    requires ops <= ArithOps && |acc| > 0 && IsOperand(acc[|acc| - 1]) && IsOperand(t)
    ensures CountIn(acc[..|acc| - 1] + [t], ops) == CountIn(acc, ops)
  {
    var pre := acc[..|acc| - 1];
    OperandCount(acc[|acc| - 1], ops);
    OperandCount(t, ops);
    assert acc == pre + [acc[|acc| - 1]];
    CountInAppend(pre, [acc[|acc| - 1]], ops);
    CountInAppend(pre, [t], ops);
  }

  /** Replacing "a op b" by the operand t keeps the count of the other
   *  operators. */
  lemma ReduceOtherCount(acc: seq<string>, rest: seq<string>, t: string, ops: set<string>, other: set<string>)
    requires ops <= ArithOps && other <= ArithOps && ops !! other
    requires |acc| > 0 && |rest| > 1 && rest[0] in ops && IsOperand(t)
    requires IsOperand(acc[|acc| - 1]) && IsOperand(rest[1])
    ensures CountIn(acc[..|acc| - 1] + [t] + rest[2..], other) == CountIn(acc + rest, other)
  {
    ReduceSwapCount(acc, t, other);
    CountInAppend(acc[..|acc| - 1] + [t], rest[2..], other);
    CountInAppend(acc, rest, other);
    ReduceRestCount(rest, other);
  }

  /** The operator and the operand after it, dropped from the front. */
  lemma ReduceRestCount(rest: seq<string>, ops: set<string>)
    requires ops <= ArithOps && |rest| > 1 && IsOperand(rest[1])
    ensures CountIn(rest, ops) == (if rest[0] in ops then 1 else 0) + CountIn(rest[2..], ops)
  {
    OperandCount(rest[1], ops);
    assert rest[1..][1..] == rest[2..];
    assert rest[1..][0] == rest[1];
  }

  /** A token a pass passes by is not one of its operators. */
  lemma SkipNotOp(acc: seq<string>, rest: seq<string>, ops: set<string>)
    requires ops <= ArithOps
    requires Alternating(acc + rest) && |rest| > 0
    requires !(rest[0] in ops && |acc| > 0 && |rest| > 1)
    ensures rest[0] !in ops
  {
    if rest[0] in ops {
      assert (acc + rest)[|acc|] == rest[0];
      OperatorPosition(acc + rest, |acc|);
    }
  }

  /** The counts behind one step of a pass that passes a token by. */
  lemma SkipStepCounts(acc: seq<string>, rest: seq<string>, ops: set<string>)
    requires ops <= ArithOps
    requires Alternating(acc + rest) && CountIn(acc, ops) == 0 && |rest| > 0
    requires !(rest[0] in ops && |acc| > 0 && |rest| > 1)
    ensures rest[0] !in ops
    ensures (acc + [rest[0]]) + rest[1..] == acc + rest
    ensures CountIn(acc + [rest[0]], ops) == 0
    ensures CountIn(rest, ops) == CountIn(rest[1..], ops)
  {
    SkipNotOp(acc, rest, ops);
    SkipCounts(acc, rest, ops);
  }

  lemma SkipCounts(acc: seq<string>, rest: seq<string>, ops: set<string>)
    requires CountIn(acc, ops) == 0 && |rest| > 0 && rest[0] !in ops
    ensures (acc + [rest[0]]) + rest[1..] == acc + rest
    ensures CountIn(acc + [rest[0]], ops) == 0
    ensures CountIn(rest, ops) == CountIn(rest[1..], ops)
  {
    var x := rest[0];
    assert (acc + [x]) + rest[1..] == acc + rest;
    CountInAppend(acc, [x], ops);
    assert CountIn([x], ops) == 0;
  }

  /** The neighbours of an operator in an alternating buffer are operands. */
  lemma Neighbours(acc: seq<string>, rest: seq<string>)
    requires Alternating(acc + rest) && |rest| > 0 && rest[0] in ArithOps
    ensures |acc| > 0 && |rest| > 1 && IsOperand(acc[|acc| - 1]) && IsOperand(rest[1])
  {
    var s := acc + rest;
    assert s[|acc|] == rest[0];
    OperatorPosition(s, |acc|);
    assert s[|acc| - 1] == acc[|acc| - 1] && s[|acc| + 1] == rest[1];
    assert Fits(s[|acc| - 1], (|acc| - 1) % 2 == 0) && Fits(s[|acc| + 1], (|acc| + 1) % 2 == 0);
  }

  /** A pass over an alternating buffer reduces every operator of ops, one
   *  node each, leaves the other operators in place and keeps the buffer
   *  alternating. */
  lemma {:induction false} PassFlat(st: LowerState, ops: set<string>, other: set<string>, acc: seq<string>, rest: seq<string>)
    requires ops <= ArithOps && other <= ArithOps && ops !! other
    requires Alternating(acc + rest) && CountIn(acc, ops) == 0
    ensures var (st', r) := Pass(st, ops, acc, rest);
            Alternating(r) && CountIn(r, ops) == 0 && CountIn(r, other) == CountIn(acc + rest, other) &&
            st'.tempCount == st.tempCount + CountIn(rest, ops) &&
            |r| == |acc| + |rest| - 2 * CountIn(rest, ops)
    decreases |rest|
  {
    if rest == [] {
      assert acc + rest == acc;
    } else if rest[0] in ops && |acc| > 0 && |rest| > 1 {
      var st1 := Reduce(st, rest[0], acc[|acc| - 1], rest[1]);
      ReduceShape(st, rest[0], acc[|acc| - 1], rest[1]);
      TempIsOperand(st.tempCount);
      Neighbours(acc, rest);
      ReduceStepAlternates(acc, rest, st1.recent);
      ReduceStepCounts(acc, rest, st1.recent, ops, other);
      PassFlat(st1, ops, other, acc[..|acc| - 1] + [st1.recent], rest[2..]);
    } else {
      SkipStepCounts(acc, rest, ops);
      PassFlat(st, ops, other, acc + [rest[0]], rest[1..]);
    }
  }

  lemma NewNodesOfTrans(a: LowerState, b: LowerState, c: LowerState, ops: set<string>)
    requires Extends(b, c) && |a.nodes| <= |b.nodes|
    requires NewNodesOf(b, |a.nodes|, ops) && NewNodesOf(c, |b.nodes|, ops)
    ensures NewNodesOf(c, |a.nodes|, ops)
  {
    forall j | |a.nodes| <= j < |b.nodes|
      ensures c.nodes[j] == b.nodes[j]
    {
      assert c.nodes[..|b.nodes|][j] == c.nodes[j];
    }
  }

  /** Every node a pass emits reduces one of the pass's operators. */
  lemma {:induction false} PassOf(st: LowerState, ops: set<string>, acc: seq<string>, rest: seq<string>)
    requires ops <= ArithOps
    ensures NewNodesOf(Pass(st, ops, acc, rest).0, |st.nodes|, ops)
    decreases |rest|
  {
    if rest == [] {
    } else if rest[0] in ops && |acc| > 0 && |rest| > 1 {
      var st1 := Reduce(st, rest[0], acc[|acc| - 1], rest[1]);
      ReduceShape(st, rest[0], acc[|acc| - 1], rest[1]);
      ReduceOf(st, rest[0], acc[|acc| - 1], rest[1], ops);
      PassOf(st1, ops, acc[..|acc| - 1] + [st1.recent], rest[2..]);
      PassExtends(st1, ops, acc[..|acc| - 1] + [st1.recent], rest[2..]);
      NewNodesOfTrans(st, st1, Pass(st, ops, acc, rest).0, ops);
    } else {
      PassOf(st, ops, acc + [rest[0]], rest[1..]);
    }
  }

  /** A parenthesis-free buffer goes through the parenthesis loop untouched
   *  and then through the two passes. */
  lemma FlatPhases(st: LowerState, s: seq<string>)
    requires Alternating(s)
    ensures var (st2, m) := Pass(st, MulOps, [], s);
            Lower(st, s) == Passes(st, s) == Pass(st2, AddOps, [], m) &&
            Alternating(m) && CountIn(m, MulOps) == 0 && CountIn(m, AddOps) == CountIn(s, AddOps) &&
            st2.tempCount == st.tempCount + CountIn(s, MulOps) &&
            |m| == |s| - 2 * CountIn(s, MulOps)
  {
    forall j | 0 <= j < |s|
      ensures s[j] != "(" && s[j] != ")"
    {
      assert Fits(s[j], j % 2 == 0);
    }
    GroupScanNoParens(st, s, 0, 0);
    assert [] + s == s;
    PassFlat(st, MulOps, AddOps, [], s);
  }

  /** interpretTree on a parenthesis-free buffer emits exactly one node per
   *  operator token and reduces the buffer to a single token. */
  lemma LowerFlat(st: LowerState, s: seq<string>)
    requires Alternating(s)
    ensures var (st', r) := Lower(st, s);
            Extends(st, st') &&
            Reductions(st, st') == CountIn(s, ArithOps) == (|s| - 1) / 2 &&
            |r| == 1 && |st'.nodes| == |st.nodes| + CountIn(s, ArithOps)
  {
    FlatPhases(st, s);
    var (st2, m) := Pass(st, MulOps, [], s);
    assert [] + m == m;
    PassFlat(st2, AddOps, MulOps, [], m);
    assert MulOps + AddOps == ArithOps;
    CountInUnion(s, MulOps, AddOps);
    assert s[0..] == s;
    AlternatingOperators(s, 0);
    LowerExtends(st, s);
  }

  /** Within one parenthesis-free buffer every MULT and DIV node comes
   *  before every ADD and SUB node. */
  lemma LowerFlatOrder(st: LowerState, s: seq<string>)
    requires Alternating(s)
    ensures var st' := Lower(st, s).0;
            |st'.nodes| == |st.nodes| + CountIn(s, ArithOps) &&
            (forall j :: |st.nodes| <= j < |st'.nodes| && j < |st.nodes| + CountIn(s, MulOps) ==>
                OfOps(st'.nodes[j].opCode, MulOps)) &&
            NewNodesOf(st', |st.nodes| + CountIn(s, MulOps), AddOps)
  {
    LowerFlat(st, s);
    FlatPhases(st, s);
    var (st2, m) := Pass(st, MulOps, [], s);
    var st3 := Lower(st, s).0;
    PassExtends(st, MulOps, [], s);
    PassExtends(st2, AddOps, [], m);
    PassOf(st, MulOps, [], s);
    PassOf(st2, AddOps, [], m);
    forall j | |st.nodes| <= j < |st.nodes| + CountIn(s, MulOps)
      ensures st3.nodes[j] == st2.nodes[j]
    {
      assert st3.nodes[..|st2.nodes|][j] == st3.nodes[j];
    }
  }

  /** Inside an open group the parenthesis loop collects the group's tokens
   *  up to the closing parenthesis. */
  lemma {:induction false} GroupScanInside(st: LowerState, s: seq<string>, n: nat, i: nat)
    requires 1 <= i <= n + 1 < |s| && s[0] == "("
    requires forall j :: 1 <= j <= n ==> s[j] != "(" && s[j] != ")"
    ensures GroupScan(st, s, i, 1, s[1..i], i) == GroupScan(st, s, n + 1, 1, s[1..n + 1], n + 1)
    decreases n + 1 - i
  {
    if i <= n {
      assert s[1..i] + [s[i]] == s[1..i + 1];
      GroupScanInside(st, s, n, i + 1);
    }
  }

  /** A leading group without inner parentheses is lowered on its own before
   *  anything around it, and is replaced by the most recent temporary of
   *  that lowering. */
  lemma GroupFirst(st: LowerState, g: seq<string>, t: seq<string>)
    requires forall j :: 0 <= j < |g| ==> g[j] != "(" && g[j] != ")"
    requires forall j :: 0 <= j < |t| ==> t[j] != "(" && t[j] != ")"
    ensures var st1 := Lower(st, g).0;
            Lower(st, ["("] + g + [")"] + t) == Passes(st1, [st1.recent] + t)
  {
    var s := ["("] + g + [")"] + t;
    var n := |g|;
    assert s[0] == "(" && s[n + 1] == ")";
    assert s[1..n + 1] == g;
    assert forall j :: 1 <= j <= n ==> s[j] == g[j - 1];
    assert GroupScan(st, s, 0, 0, [], 0) == GroupScan(st, s, 1, 1, s[1..1], 1);
    GroupScanInside(st, s, n, 1);
    var st1 := Lower(st, g).0;
    var s' := s[..0] + [st1.recent] + s[n + 2..];
    assert s' == [st1.recent] + t;
    GroupScanNoParens(st1, s', 1, 0);
  }

  /** The source's quirk: a group holding a single operand emits no node and
   *  is replaced by whatever temporary was most recent before it, not by
   *  the operand. */
  lemma SingleOperandGroup(st: LowerState, x: string, t: seq<string>)
    requires IsOperand(x)
    requires forall j :: 0 <= j < |t| ==> t[j] != "(" && t[j] != ")"
    ensures Lower(st, ["(", x, ")"] + t) == Passes(st, [st.recent] + t)
  {
    GroupFirst(st, [x], t);
    assert ["("] + [x] + [")"] + t == ["(", x, ")"] + t;
    LowerOperand(st, x);
  }

  /** A lone operand lowers to itself and emits nothing. */
  lemma LowerOperand(st: LowerState, x: string)
    requires IsOperand(x)
    ensures Lower(st, [x]) == (st, [x])
  {
    GroupScanNoParens(st, [x], 0, 0);
    assert x !in MulOps && x !in AddOps;
    assert [x][1..] == [] && [] + [x] == [x] && [x][0] == x;
    assert Pass(st, MulOps, [], [x]) == Pass(st, MulOps, [x], []);
    assert Pass(st, AddOps, [], [x]) == Pass(st, AddOps, [x], []);
    assert Pass(st, MulOps, [], [x]) == (st, [x]);
    assert Pass(st, AddOps, [], [x]) == (st, [x]);
  }

  // ---------------------------------------------------------------------
  // Left to right

  /** The node a pass emits for the operator at position p of its input
   *  buffer s: it is the pass's j-th node, j the number of the pass's
   *  operators before p; it reduces s[p] with the operand after it, and with
   *  the operand before it or, when the operator two places back was
   *  reduced by the same pass, with that reduction's temporary. */
  ghost predicate NodeAt(nodes: seq<IRNode>, n0: nat, c0: nat, s: seq<string>, ops: set<string>, p: nat)
    requires 0 < p < |s| - 1
  {
    var j := CountIn(s[..p], ops);
    n0 + j < |nodes| &&
    StartsWith(nodes[n0 + j].opCode, s[p]) && nodes[n0 + j].op2 == s[p + 1] &&
    nodes[n0 + j].result == TempName(c0 + j) &&
    if p >= 2 && s[p - 2] in ops then j >= 1 && nodes[n0 + j].op1 == TempName(c0 + j - 1)
    else nodes[n0 + j].op1 == s[p - 1]
  }

  /** NodeAt survives appending nodes. */
  lemma NodeAtGrows(nodes: seq<IRNode>, nodes': seq<IRNode>, n0: nat, c0: nat, s: seq<string>, ops: set<string>, p: nat)
    requires 0 < p < |s| - 1 && NodeAt(nodes, n0, c0, s, ops, p)
    requires |nodes| <= |nodes'| && nodes'[..|nodes|] == nodes
    ensures NodeAt(nodes', n0, c0, s, ops, p)
  {
    var k := n0 + CountIn(s[..p], ops);
    assert nodes'[..|nodes|][k] == nodes'[k];
  }

  /** The prefix count goes up by one at an operator of ops followed by an
   *  operand, and stays at a token outside ops. */
  lemma CountPrefixStep(s: seq<string>, i: nat, ops: set<string>)
    requires i < |s|
    ensures CountIn(s[..i + 1], ops) == CountIn(s[..i], ops) + (if s[i] in ops then 1 else 0)
  {
    assert s[..i + 1] == s[..i] + [s[i]];
    CountInAppend(s[..i], [s[i]], ops);
  }

  /** A pass keeps the nodes it starts with. */
  lemma PassKeepsNodes(st: LowerState, ops: set<string>, acc: seq<string>, rest: seq<string>)
    requires ops <= ArithOps
    ensures var fin := Pass(st, ops, acc, rest).0;
            |st.nodes| <= |fin.nodes| && fin.nodes[..|st.nodes|] == st.nodes
  {
    PassExtends(st, ops, acc, rest);
  }

  /** What a pass has done by the time it reaches position i of s: acc
   *  holds what the tokens before i became, rest the tokens from i on, and
   *  one node and one temporary were made per operator of ops before i; at
   *  an odd position the last token of acc is the operand before i or, when
   *  the operator before it was reduced, that reduction's temporary. */
  ghost predicate PassState(n0: nat, c0: nat, st: LowerState, ops: set<string>, s: seq<string>, i: nat,
                            acc: seq<string>, rest: seq<string>) {
    ops <= ArithOps && Alternating(s) && i <= |s| && rest == s[i..] && Alternating(acc + rest) &&
    |st.nodes| == n0 + CountIn(s[..i], ops) && st.tempCount == c0 + CountIn(s[..i], ops) &&
    (i % 2 == 1 ==>
       |acc| > 0 &&
       if i >= 2 && s[i - 2] in ops then st.tempCount >= 1 && acc[|acc| - 1] == TempName(st.tempCount - 1)
       else acc[|acc| - 1] == s[i - 1]) &&
    (i % 2 == 0 && i > 0 ==> s[i - 1] !in ops)
  }

  /** The pass at an operator of ops at position i, st1 being the state
   *  after the reduction: the node it emits is the one NodeAt names, and
   *  the pass goes on from i + 2. */
  lemma PassNodesStep(n0: nat, c0: nat, st: LowerState, st1: LowerState, ops: set<string>, s: seq<string>, i: nat,
                      acc: seq<string>, rest: seq<string>)
    requires PassState(n0, c0, st, ops, s, i, acc, rest) && i < |s| && i % 2 == 1 && rest[0] in ops && |rest| > 1
    requires |st1.nodes| == |st.nodes| + 1 && st1.tempCount == st.tempCount + 1 && st1.recent == TempName(st.tempCount) &&
            st1.nodes[|st.nodes|].op1 == acc[|acc| - 1] && st1.nodes[|st.nodes|].op2 == rest[1] &&
            st1.nodes[|st.nodes|].result == TempName(st.tempCount) &&
            StartsWith(st1.nodes[|st.nodes|].opCode, rest[0])
    ensures 0 < i < |s| - 1 && NodeAt(st1.nodes, n0, c0, s, ops, i)
    ensures PassState(n0, c0, st1, ops, s, i + 2, acc[..|acc| - 1] + [st1.recent], rest[2..])
  {
    OperatorPosition(s, i);
    assert s[i] == rest[0] && s[i + 1] == rest[1];
    assert s[i + 1] !in ops by {
      assert Fits(s[i + 1], (i + 1) % 2 == 0);
    }
    CountPrefixStep(s, i, ops);
    CountPrefixStep(s, i + 1, ops);
    TempIsOperand(st.tempCount);
    ReduceStepAlternates(acc, rest, st1.recent);
    FieldsNodeAt(st1.nodes, n0, c0, s, ops, i, acc[|acc| - 1], st.tempCount);
  }

  /** The pass reduces the operator of ops at an odd position i, reaching
   *  st1 with acc1 before the rest of the buffer. */
  lemma PassReduceStep(n0: nat, c0: nat, st: LowerState, ops: set<string>, s: seq<string>, i: nat,
                       acc: seq<string>, rest: seq<string>) returns (st1: LowerState, acc1: seq<string>)
    requires PassState(n0, c0, st, ops, s, i, acc, rest) && i < |s| && i % 2 == 1 && rest[0] in ops
    ensures |rest| > 1 && 0 < i < |s| - 1 && NodeAt(st1.nodes, n0, c0, s, ops, i)
    ensures PassState(n0, c0, st1, ops, s, i + 2, acc1, rest[2..])
    ensures Pass(st, ops, acc, rest) == Pass(st1, ops, acc1, rest[2..])
  {
    Neighbours(acc, rest);
    st1 := Reduce(st, rest[0], acc[|acc| - 1], rest[1]);
    acc1 := acc[..|acc| - 1] + [st1.recent];
    ReduceLast(st, rest[0], acc[|acc| - 1], rest[1]);
    PassNodesStep(n0, c0, st, st1, ops, s, i, acc, rest);
  }

  /** The pass moves over a token that is not an operator of ops at an odd
   *  position. */
  lemma PassSkipStep(n0: nat, c0: nat, st: LowerState, ops: set<string>, s: seq<string>, i: nat,
                     acc: seq<string>, rest: seq<string>)
    requires PassState(n0, c0, st, ops, s, i, acc, rest) && i < |s| && !(rest[0] in ops && i % 2 == 1)
    ensures rest[0] !in ops && PassState(n0, c0, st, ops, s, i + 1, acc + [rest[0]], rest[1..])
    ensures Pass(st, ops, acc, rest) == Pass(st, ops, acc + [rest[0]], rest[1..])
  {
    assert s[i] == rest[0];
    if i % 2 == 0 {
      assert Fits(s[i], true);
    } else {
      assert Fits(s[i], false);
    }
    CountPrefixStep(s, i, ops);
    assert acc + rest == (acc + [rest[0]]) + rest[1..];
    assert rest[1..] == s[i + 1..];
  }

  /** A node with the right fields at the right place is the one NodeAt
   *  names for the operator at position i. */
  lemma FieldsNodeAt(nodes: seq<IRNode>, n0: nat, c0: nat, s: seq<string>, ops: set<string>, i: nat, left: string, t: nat)
    requires 0 < i < |s| - 1
    requires n0 + CountIn(s[..i], ops) < |nodes| && t == c0 + CountIn(s[..i], ops)
    requires if i >= 2 && s[i - 2] in ops then t >= 1 && left == TempName(t - 1) else left == s[i - 1]
    requires var nd := nodes[n0 + CountIn(s[..i], ops)];
             nd.op1 == left && nd.op2 == s[i + 1] && nd.result == TempName(t) && StartsWith(nd.opCode, s[i])
    ensures NodeAt(nodes, n0, c0, s, ops, i)
  {
    if i >= 2 && s[i - 2] in ops {
      CountMember(s[..i], i - 2, ops);
    }
  }

  /** A buffer holding a token of ops counts at least one. */
  lemma CountMember(s: seq<string>, k: nat, ops: set<string>)
    requires k < |s| && s[k] in ops
    ensures CountIn(s, ops) >= 1
  {
    assert s == s[..k] + s[k..];
    CountInAppend(s[..k], s[k..], ops);
  }

  /** The node one reduction appends, field by field. */
  lemma ReduceLast(st: LowerState, op: string, a: string, b: string)
    requires op in ArithOps
    ensures var st' := Reduce(st, op, a, b);
            |st'.nodes| == |st.nodes| + 1 && st'.tempCount == st.tempCount + 1 && st'.recent == TempName(st.tempCount) &&
            st'.nodes[|st.nodes|].op1 == a && st'.nodes[|st.nodes|].op2 == b &&
            st'.nodes[|st.nodes|].result == TempName(st.tempCount) &&
            StartsWith(st'.nodes[|st.nodes|].opCode, op)
  {
    ReduceExtends(st, op, a, b);
    ReduceShape(st, op, a, b);
  }

  /** The pass from position i of s on: the operator of ops at position
   *  p >= i gets its NodeAt node. */
  lemma {:induction false} PassNodes(n0: nat, c0: nat, st: LowerState, ops: set<string>, s: seq<string>, i: nat,
                                     acc: seq<string>, rest: seq<string>, p: nat)
    requires PassState(n0, c0, st, ops, s, i, acc, rest) && i <= p < |s| && s[p] in ops
    ensures 0 < p < |s| - 1 && NodeAt(Pass(st, ops, acc, rest).0.nodes, n0, c0, s, ops, p)
    decreases |rest|, 1
  {
    assert s[i] == rest[0];
    if rest[0] in ops && i % 2 == 1 {
      if p == i {
        PassNodeHere(n0, c0, st, ops, s, i, acc, rest);
      } else {
        var st1, acc1 := PassReduceStep(n0, c0, st, ops, s, i, acc, rest);
        PassNodesAfter(n0, c0, st1, ops, s, i, acc1, rest[2..], p);
      }
    } else {
      PassNodesSkip(n0, c0, st, ops, s, i, acc, rest, p);
    }
  }

  /** The node the pass emits for the operator at i stays among its nodes. */
  lemma PassNodeHere(n0: nat, c0: nat, st: LowerState, ops: set<string>, s: seq<string>, i: nat,
                     acc: seq<string>, rest: seq<string>)
    requires PassState(n0, c0, st, ops, s, i, acc, rest) && i < |s| && rest[0] in ops && i % 2 == 1
    ensures 0 < i < |s| - 1 && NodeAt(Pass(st, ops, acc, rest).0.nodes, n0, c0, s, ops, i)
  {
    var st1, acc1 := PassReduceStep(n0, c0, st, ops, s, i, acc, rest);
    PassKeepsNodes(st1, ops, acc1, rest[2..]);
    NodeAtGrows(st1.nodes, Pass(st1, ops, acc1, rest[2..]).0.nodes, n0, c0, s, ops, i);
  }

  /** PassNodes after the reduction at i, for an operator further on. */
  lemma {:induction false} PassNodesAfter(n0: nat, c0: nat, st1: LowerState, ops: set<string>, s: seq<string>, i: nat,
                                          acc1: seq<string>, rest1: seq<string>, p: nat)
    requires PassState(n0, c0, st1, ops, s, i + 2, acc1, rest1) && i % 2 == 1 && i < p < |s| && s[p] in ops
    ensures 0 < p < |s| - 1 && NodeAt(Pass(st1, ops, acc1, rest1).0.nodes, n0, c0, s, ops, p)
    decreases |rest1|, 2
  {
    OperatorPosition(s, p);
    OddGap(i, p);
    PassNodes(n0, c0, st1, ops, s, i + 2, acc1, rest1, p);
  }

  /** Two distinct odd positions are at least two apart. */
  lemma OddGap(i: nat, p: nat)
    requires i % 2 == 1 && p % 2 == 1 && i < p
    ensures i + 2 <= p
  {
  }

  /** PassNodes at any other token: it is passed over. */
  lemma {:induction false} PassNodesSkip(n0: nat, c0: nat, st: LowerState, ops: set<string>, s: seq<string>, i: nat,
                                         acc: seq<string>, rest: seq<string>, p: nat)
    requires PassState(n0, c0, st, ops, s, i, acc, rest) && i <= p < |s| && s[p] in ops
    requires !(rest[0] in ops && i % 2 == 1)
    ensures 0 < p < |s| - 1 && NodeAt(Pass(st, ops, acc, rest).0.nodes, n0, c0, s, ops, p)
    decreases |rest|, 0
  {
    OperatorPosition(s, p);
    PassSkipStep(n0, c0, st, ops, s, i, acc, rest);
    PassNodes(n0, c0, st, ops, s, i + 1, acc + [rest[0]], rest[1..], p);
  }

  /** A pass over an alternating buffer works left to right: the operator at
   *  position p gives the pass's j-th node, j the number of the pass's
   *  operators before p, reducing s[p] with s[p+1] and with s[p-1] or, when
   *  the operator before it was reduced by the same pass, with that node's
   *  temporary. */
  lemma PassLeftToRight(st: LowerState, ops: set<string>, s: seq<string>)
    requires ops <= ArithOps && Alternating(s)
    ensures forall p {:trigger NodeAt(Pass(st, ops, [], s).0.nodes, |st.nodes|, st.tempCount, s, ops, p)} :: 0 <= p < |s| && s[p] in ops ==>
              0 < p < |s| - 1 && NodeAt(Pass(st, ops, [], s).0.nodes, |st.nodes|, st.tempCount, s, ops, p)
  {
    assert s[..0] == [] && s[0..] == s && [] + s == s;
    assert PassState(|st.nodes|, st.tempCount, st, ops, s, 0, [], s);
    forall p | 0 <= p < |s| && s[p] in ops
      ensures 0 < p < |s| - 1 && NodeAt(Pass(st, ops, [], s).0.nodes, |st.nodes|, st.tempCount, s, ops, p)
    {
      PassNodes(|st.nodes|, st.tempCount, st, ops, s, 0, [], s, p);
    }
  }

  /** interpretTree on a parenthesis-free buffer, node by node, first half:
   *  the MULT and DIV nodes come first, left to right over s, and survive the
   *  second pass. */
  lemma MulNodesFirst(st: LowerState, s: seq<string>)
    requires Alternating(s)
    ensures var (st2, m) := Pass(st, MulOps, [], s);
            var fin := Lower(st, s).0;
            (forall p {:trigger NodeAt(fin.nodes, |st.nodes|, st.tempCount, s, MulOps, p)} :: 0 <= p < |s| && s[p] in MulOps ==>
               0 < p < |s| - 1 && NodeAt(fin.nodes, |st.nodes|, st.tempCount, s, MulOps, p)) &&
            |st2.nodes| == |st.nodes| + CountIn(s, MulOps) && st2.tempCount == st.tempCount + CountIn(s, MulOps)
  {
    FlatPhases(st, s);
    var (st2, m) := Pass(st, MulOps, [], s);
    var fin := Lower(st, s).0;
    PassLeftToRight(st, MulOps, s);
    PassExtends(st, MulOps, [], s);
    PassKeepsNodes(st2, AddOps, [], m);
    forall p | 0 <= p < |s| && s[p] in MulOps
      ensures 0 < p < |s| - 1 && NodeAt(fin.nodes, |st.nodes|, st.tempCount, s, MulOps, p)
    {
      OperatorPosition(s, p);
      assert NodeAt(Pass(st, MulOps, [], s).0.nodes, |st.nodes|, st.tempCount, s, MulOps, p);
      NodeAtGrows(st2.nodes, fin.nodes, |st.nodes|, st.tempCount, s, MulOps, p);
    }
  }

  /** The ADD and SUB nodes of a parenthesis-free buffer come next, left to
   *  right over what the first pass leaves. */
  lemma AddNodesNext(st: LowerState, s: seq<string>)
    requires Alternating(s)
    ensures var (st2, m) := Pass(st, MulOps, [], s);
            var fin := Lower(st, s).0;
            forall p {:trigger NodeAt(fin.nodes, |st2.nodes|, st2.tempCount, m, AddOps, p)} :: 0 <= p < |m| && m[p] in AddOps ==>
              0 < p < |m| - 1 && NodeAt(fin.nodes, |st2.nodes|, st2.tempCount, m, AddOps, p)
  {
    FlatPhases(st, s);
    var (st2, m) := Pass(st, MulOps, [], s);
    var fin := Lower(st, s).0;
    PassLeftToRight(st2, AddOps, m);
    forall p | 0 <= p < |m| && m[p] in AddOps
      ensures 0 < p < |m| - 1 && NodeAt(fin.nodes, |st2.nodes|, st2.tempCount, m, AddOps, p)
    {
      OperatorPosition(m, p);
      assert NodeAt(Pass(st2, AddOps, [], m).0.nodes, |st2.nodes|, st2.tempCount, m, AddOps, p);
    }
  }

  /** A pass over a buffer holding none of its operators changes nothing. */
  lemma {:induction false} PassNone(st: LowerState, ops: set<string>, acc: seq<string>, rest: seq<string>)
    requires CountIn(rest, ops) == 0
    ensures Pass(st, ops, acc, rest) == (st, acc + rest)
    decreases |rest|
  {
    if rest != [] {
      assert rest[0] !in ops;
      assert (acc + [rest[0]]) + rest[1..] == acc + rest;
      PassNone(st, ops, acc + [rest[0]], rest[1..]);
    } else {
      assert acc + rest == acc;
    }
  }

  /** Subtraction associates to the left: "a - b - c" emits t := a - b and
   *  then t' := t - c, t and t' the next two temporaries. */
  lemma SubtractLeft(st: LowerState, a: string, b: string, c: string)
    requires IsOperand(a) && IsOperand(b) && IsOperand(c)
    ensures var fin := Lower(st, [a, "SUB", b, "SUB", c]).0;
            var k, t := |st.nodes|, st.tempCount;
            k + 1 < |fin.nodes| &&
            StartsWith(fin.nodes[k].opCode, "SUB") && fin.nodes[k].op1 == a && fin.nodes[k].op2 == b &&
            fin.nodes[k].result == TempName(t) &&
            StartsWith(fin.nodes[k + 1].opCode, "SUB") && fin.nodes[k + 1].op1 == TempName(t) &&
            fin.nodes[k + 1].op2 == c && fin.nodes[k + 1].result == TempName(t + 1)
  {
    var s := [a, "SUB", b, "SUB", c];
    SubtractBuffer(a, b, c);
    AddOnlyLeftToRight(st, s);
    TwoNodes(Lower(st, s).0.nodes, |st.nodes|, st.tempCount, s, AddOps);
  }

  /** The buffer "a - b - c": alternating, without MULT or DIV, one SUB
   *  before its second operator. */
  lemma SubtractBuffer(a: string, b: string, c: string)
    requires IsOperand(a) && IsOperand(b) && IsOperand(c)
    ensures var s := [a, "SUB", b, "SUB", c];
            Alternating(s) && CountIn(s, MulOps) == 0 && s[1] in AddOps && s[3] in AddOps &&
            CountIn(s[..1], AddOps) == 0 && CountIn(s[..3], AddOps) == 1
  {
    var s := [a, "SUB", b, "SUB", c];
    assert Alternating(s) by {
      forall i | 0 <= i < |s|
        ensures Fits(s[i], i % 2 == 0)
      {
      }
    }
    CountNone(s, MulOps);
    CountNone(s[..1], AddOps);
    assert s[..3] == s[..1] + [s[1]] + [s[2]];
    CountInAppend(s[..1] + [s[1]], [s[2]], AddOps);
    CountInAppend(s[..1], [s[1]], AddOps);
    assert [s[1]][1..] == [] && [s[2]][1..] == [];
  }

  /** A chain of additions and subtractions, with no MULT or DIV, is
   *  lowered left to right: the operator at position p gives the j-th new
   *  node, j the number of operators before p, whose left operand is the
   *  operand before p or the previous node's temporary. */
  lemma AddOnlyLeftToRight(st: LowerState, s: seq<string>)
    requires Alternating(s) && CountIn(s, MulOps) == 0
    ensures forall p {:trigger NodeAt(Lower(st, s).0.nodes, |st.nodes|, st.tempCount, s, AddOps, p)} ::
              0 <= p < |s| && s[p] in AddOps ==>
                0 < p < |s| - 1 && NodeAt(Lower(st, s).0.nodes, |st.nodes|, st.tempCount, s, AddOps, p)
  {
    PassNone(st, MulOps, [], s);
    assert [] + s == s;
    FlatPhases(st, s);
    var fin := Lower(st, s).0;
    assert fin == Pass(st, AddOps, [], s).0;
    PassLeftToRight(st, AddOps, s);
    forall p | 0 <= p < |s| && s[p] in AddOps
      ensures 0 < p < |s| - 1 && NodeAt(fin.nodes, |st.nodes|, st.tempCount, s, AddOps, p)
    {
      OperatorPosition(s, p);
      assert NodeAt(Pass(st, AddOps, [], s).0.nodes, |st.nodes|, st.tempCount, s, AddOps, p);
    }
  }

  /** The nodes NodeAt names for the two operators of a five-token buffer. */
  lemma TwoNodes(nodes: seq<IRNode>, n0: nat, c0: nat, s: seq<string>, ops: set<string>)
    requires |s| == 5 && s[1] in ops && s[3] in ops
    requires CountIn(s[..1], ops) == 0 && CountIn(s[..3], ops) == 1
    requires NodeAt(nodes, n0, c0, s, ops, 1) && NodeAt(nodes, n0, c0, s, ops, 3)
    ensures n0 + 1 < |nodes| &&
            StartsWith(nodes[n0].opCode, s[1]) && nodes[n0].op1 == s[0] && nodes[n0].op2 == s[2] &&
            nodes[n0].result == TempName(c0) &&
            StartsWith(nodes[n0 + 1].opCode, s[3]) && nodes[n0 + 1].op1 == TempName(c0) &&
            nodes[n0 + 1].op2 == s[4] && nodes[n0 + 1].result == TempName(c0 + 1)
  {
  }

  /** A buffer holding none of ops counts none. */
  lemma {:induction false} CountNone(s: seq<string>, ops: set<string>)
    requires forall i :: 0 <= i < |s| ==> s[i] !in ops
    ensures CountIn(s, ops) == 0
  {
    if s != [] {
      assert forall i :: 0 <= i < |s| - 1 ==> s[1..][i] == s[i + 1];
      CountNone(s[1..], ops);
    }
  }

  // ---------------------------------------------------------------------
  // Buffers with parenthesised groups

  /** A well-formed expression buffer: atoms separated by operators, an atom
   *  being an operand or a parenthesised expression, nested to any depth. */
  datatype Atom = Operand(x: string) | Paren(e: Expr)
  datatype Expr = Single(a: Atom) | Chain(a: Atom, op: string, rest: Expr)

  /** The tokens of an atom and of an expression, as the buffer holds them. */
  function RenderAtom(a: Atom): seq<string> {
    match a
    case Operand(x) => [x]
    case Paren(e) => ["("] + Render(e) + [")"]
  }

  function Render(e: Expr): seq<string> {
    match e
    case Single(a) => RenderAtom(a)
    case Chain(a, op, r) => RenderAtom(a) + [op] + Render(r)
  }

  predicate WellFormedAtom(a: Atom) {
    match a
    case Operand(x) => IsOperand(x)
    case Paren(e) => WellFormed(e)
  }

  predicate WellFormed(e: Expr) {
    match e
    case Single(a) => WellFormedAtom(a)
    case Chain(a, op, r) => WellFormedAtom(a) && op in ArithOps && WellFormed(r)
  }

  // Facts about renderings and the buffers holding them, with no scanning
  // in them.

  /** The buffer s holds the tokens w from position i on. */
  predicate Holds(s: seq<string>, i: nat, w: seq<string>)
    decreases |w|
  {
    if w == [] then i <= |s| else i < |s| && s[i] == w[0] && Holds(s, i + 1, w[1..])
  }

  lemma {:induction false} HoldsBound(s: seq<string>, i: nat, w: seq<string>)
    requires Holds(s, i, w)
    ensures i + |w| <= |s|
    decreases |w|
  {
    if w != [] {
      HoldsBound(s, i + 1, w[1..]);
    }
  }

  /** Holding x + y is holding x and then y. */
  lemma {:induction false} HoldsAppend(s: seq<string>, i: nat, x: seq<string>, y: seq<string>)
    ensures Holds(s, i, x + y) <==> Holds(s, i, x) && Holds(s, i + |x|, y)
    decreases |x|
  {
    if x == [] {
      assert x + y == y;
      if Holds(s, i, y) {
        HoldsBound(s, i, y);
      }
    } else {
      assert (x + y)[0] == x[0] && (x + y)[1..] == x[1..] + y;
      HoldsAppend(s, i + 1, x[1..], y);
    }
  }

  /** Holding one token. */
  lemma HoldsOne(s: seq<string>, i: nat, t: string)
    ensures Holds(s, i, [t]) <==> i < |s| && s[i] == t
  {
    assert [t][1..] == [];
  }

  /** A buffer holds each of its parts. */
  lemma {:induction false} HoldsMiddle(u: seq<string>, w: seq<string>, v: seq<string>)
    ensures Holds(u + w + v, |u|, w)
    decreases |w|
  {
    if w != [] {
      assert (u + w + v)[|u|] == w[0];
      assert u + w + v == (u + [w[0]]) + w[1..] + v;
      HoldsMiddle(u + [w[0]], w[1..], v);
    }
  }

  /** The parts of a chain's rendering: its first atom, then the operator
   *  and the rest. */
  lemma ChainSlices(s: seq<string>, i: nat, a: Atom, op: string, r: Expr)
    requires Holds(s, i, Render(Chain(a, op, r)))
    ensures Render(Chain(a, op, r)) == RenderAtom(a) + ([op] + Render(r))
    ensures i + |RenderAtom(a)| + |[op] + Render(r)| <= |s|
    ensures Holds(s, i, RenderAtom(a)) && Holds(s, i + |RenderAtom(a)|, [op] + Render(r))
  {
    var ra, rr := RenderAtom(a), Render(r);
    assert Render(Chain(a, op, r)) == ra + [op] + rr == ra + ([op] + rr);
    HoldsAppend(s, i, ra, [op] + rr);
    HoldsBound(s, i, Render(Chain(a, op, r)));
  }

  /** An operator, then what follows it. */
  lemma RestSlices(s: seq<string>, j: nat, op: string, rr: seq<string>)
    requires Holds(s, j, [op] + rr)
    ensures j < |s| && s[j] == op && j + 1 + |rr| <= |s| && Holds(s, j + 1, rr)
  {
    HoldsAppend(s, j, [op], rr);
    HoldsOne(s, j, op);
    HoldsBound(s, j + 1, rr);
  }

  /** A group: "(", its inside, ")". */
  lemma ParenSlices(s: seq<string>, i: nat, ri: seq<string>)
    requires Holds(s, i, ["("] + ri + [")"])
    ensures i < |s| && s[i] == "(" && Holds(s, i + 1, ri)
    ensures i + 1 + |ri| < |s| && s[i + 1 + |ri|] == ")"
  {
    HoldsAppend(s, i, ["("] + ri, [")"]);
    HoldsAppend(s, i, ["("], ri);
    HoldsOne(s, i, "(");
    HoldsOne(s, i + 1 + |ri|, ")");
  }

  /** The atom between pre and post. */
  lemma AtomSlice(pre: seq<string>, ra: seq<string>, post: seq<string>)
    ensures |pre| + |ra| <= |pre + ra + post| && Holds(pre + ra + post, |pre|, ra)
  {
    HoldsMiddle(pre, ra, post);
  }

  /** Replacing the atom between pre and post by one token. */
  lemma Splice(pre: seq<string>, ra: seq<string>, post: seq<string>, t: string)
    ensures var s := pre + ra + post;
            s[..|pre|] + [t] + s[|pre| + |ra|..] == pre + [t] + post
  {
    var s := pre + ra + post;
    assert s[..|pre|] == pre && s[|pre| + |ra|..] == post;
  }

  /** The buffers around a chain's first atom at top level. */
  lemma ChainTopSeqs(pre: seq<string>, a: Atom, op: string, r: Expr, t: string)
    ensures pre + Render(Chain(a, op, r)) == pre + RenderAtom(a) + ([op] + Render(r))
    ensures pre + [t] + ([op] + Render(r)) == pre + [t, op] + Render(r)
    ensures (pre + [t] + ([op] + Render(r)))[|pre| + 1] == op
  {
    var ra, rr := RenderAtom(a), Render(r);
    assert Render(Chain(a, op, r)) == ra + [op] + rr;
    assert pre + (ra + [op] + rr) == pre + ra + ([op] + rr);
    assert pre + [t] + ([op] + rr) == pre + [t, op] + rr;
  }

  /** The operator count of a chain's rendering. */
  lemma ChainCount(a: Atom, op: string, r: Expr)
    requires op in ArithOps
    ensures CountIn(Render(Chain(a, op, r)), ArithOps) == CountIn(RenderAtom(a), ArithOps) + 1 + CountIn(Render(r), ArithOps)
  {
    var ra, rr := RenderAtom(a), Render(r);
    assert Render(Chain(a, op, r)) == (ra + [op]) + rr;
    CountInAppend(ra + [op], rr, ArithOps);
    CountInAppend(ra, [op], ArithOps);
    assert [op][1..] == [];
  }

  /** An alternating buffer, two tokens longer at the front. */
  lemma AlternatingCons(t: string, op: string, h: seq<string>)
    requires IsOperand(t) && op in ArithOps && Alternating(h)
    ensures Alternating([t, op] + h)
    ensures CountIn([t, op] + h, ArithOps) == 1 + CountIn(h, ArithOps)
  {
    var s := [t, op] + h;
    forall i | 0 <= i < |s|
      ensures Fits(s[i], i % 2 == 0)
    {
      if i >= 2 {
        assert s[i] == h[i - 2];
        assert Fits(h[i - 2], (i - 2) % 2 == 0);
      }
    }
    assert s[1..] == [op] + h && s[1..][1..] == h;
  }

  /** The operator count of a group's tokens is that of its inside. */
  lemma ParenCount(w: seq<string>)
    ensures CountIn(["("] + w + [")"], ArithOps) == CountIn(w, ArithOps)
  {
    CountInAppend(["("] + w, [")"], ArithOps);
    CountInAppend(["("], w, ArithOps);
  }

  /** A buffer g that starts with pre, t, op and goes on alternating, seen
   *  from just after pre. */
  lemma ChainTail(pre: seq<string>, t: string, op: string, g: seq<string>)
    requires IsOperand(t) && op in ArithOps
    requires |pre| + 2 <= |g| && g[..|pre| + 2] == pre + [t, op] && Alternating(g[|pre| + 2..])
    ensures g[..|pre|] == pre && Alternating(g[|pre|..])
    ensures CountIn(g[|pre|..], ArithOps) == 1 + CountIn(g[|pre| + 2..], ArithOps)
  {
    var h := g[|pre| + 2..];
    assert g[|pre|..] == [t, op] + h by {
      assert g == g[..|pre| + 2] + h;
    }
    assert g[..|pre|] == g[..|pre| + 2][..|pre|];
    AlternatingCons(t, op, h);
  }

  /** A buffer pre + [t], seen from just after pre. */
  lemma SingleTail(pre: seq<string>, t: string)
    requires IsOperand(t)
    ensures (pre + [t])[..|pre|] == pre && (pre + [t])[|pre|..] == [t] && Alternating([t])
    ensures CountIn([t], ArithOps) == 0
  {
    assert Fits([t][0], true);
  }

  // Scanning, with no slicing in it.

  /** One step of the parenthesis loop over a token that is no parenthesis:
   *  inside a group it is collected, outside one it is passed by. */
  lemma ScanToken(st: LowerState, s: seq<string>, i: nat, d: int, sub: seq<string>, numOps: nat)
    requires i < |s| && numOps <= i && |sub| <= numOps && s[i] != "(" && s[i] != ")"
    ensures GroupScan(st, s, i, d, sub, numOps) ==
            if d != 0 then GroupScan(st, s, i + 1, d, sub + [s[i]], numOps + 1)
            else GroupScan(st, s, i + 1, d, sub, numOps)
  {
  }

  /** One step over "(": one level deeper; collected unless it opens the group. */
  lemma ScanOpen(st: LowerState, s: seq<string>, i: nat, d: nat, sub: seq<string>, numOps: nat)
    requires i < |s| && numOps <= i && |sub| <= numOps && s[i] == "("
    ensures GroupScan(st, s, i, d, sub, numOps) ==
            GroupScan(st, s, i + 1, d + 1, if d > 0 then sub + ["("] else sub, numOps + 1)
  {
  }

  /** One step over a ")" that closes an inner group: collected. */
  lemma ScanCloseInner(st: LowerState, s: seq<string>, i: nat, d: int, sub: seq<string>, numOps: nat)
    requires i < |s| && numOps <= i && |sub| <= numOps && s[i] == ")" && d >= 2
    ensures GroupScan(st, s, i, d, sub, numOps) == GroupScan(st, s, i + 1, d - 1, sub + [")"], numOps + 1)
  {
  }

  /** One step over the ")" that closes the outer group: the group is
   *  lowered and replaced, parentheses included, by the most recent
   *  temporary. */
  lemma ScanCloseGroup(st: LowerState, s: seq<string>, i: nat, sub: seq<string>, numOps: nat)
    requires i < |s| && numOps <= i && |sub| <= numOps && s[i] == ")"
    ensures var st1 := Lower(st, sub).0;
            GroupScan(st, s, i, 1, sub, numOps) ==
            GroupScan(st1, s[..i - numOps] + [st1.recent] + s[i + 1..], i - numOps + 1, 0, [], 0)
  {
  }

  /** Two stretches of the parenthesis loop in a row, collecting x and then
   *  y, that is w, into the open group. */
  lemma ScanGlue(st: LowerState, s: seq<string>, i: nat, d1: int, d2: int, d3: int, sub: seq<string>, numOps: nat,
                 x: seq<string>, y: seq<string>, w: seq<string>)
    requires i + |x| + |y| <= |s| && numOps <= i && |sub| <= numOps && w == x + y
    requires GroupScan(st, s, i, d1, sub, numOps) == GroupScan(st, s, i + |x|, d2, sub + x, numOps + |x|)
    requires GroupScan(st, s, i + |x|, d2, sub + x, numOps + |x|) ==
             GroupScan(st, s, i + |x| + |y|, d3, sub + x + y, numOps + |x| + |y|)
    ensures GroupScan(st, s, i, d1, sub, numOps) == GroupScan(st, s, i + |w|, d3, sub + w, numOps + |w|)
  {
    assert sub + x + y == sub + w;
  }

  /** Inside an open group the parenthesis loop passes over the rendering of
   *  a well-formed expression, inner groups included, collecting all of its
   *  tokens, and ends at the depth it started from. */
  lemma {:induction false} ScanInside(st: LowerState, s: seq<string>, i: nat, d: int, sub: seq<string>, numOps: nat, e: Expr)
    requires WellFormed(e) && d >= 1
    requires i + |Render(e)| <= |s| && Holds(s, i, Render(e))
    requires numOps <= i && |sub| <= numOps
    ensures GroupScan(st, s, i, d, sub, numOps) ==
            GroupScan(st, s, i + |Render(e)|, d, sub + Render(e), numOps + |Render(e)|)
    decreases e, 2
  {
    match e {
      case Single(a) =>
        assert Render(e) == RenderAtom(a);
        ScanInsideAtom(st, s, i, d, sub, numOps, a);
      case Chain(a, op, r) =>
        ChainSlices(s, i, a, op, r);
        ScanInsideChain(st, s, i, d, sub, numOps, a, op, r);
    }
  }

  /** The same over a chain: its first atom, then the operator and the rest. */
  lemma {:induction false} ScanInsideChain(st: LowerState, s: seq<string>, i: nat, d: int, sub: seq<string>, numOps: nat,
                                           a: Atom, op: string, r: Expr)
    requires WellFormedAtom(a) && op in ArithOps && WellFormed(r) && d >= 1
    requires i + |RenderAtom(a)| + |[op] + Render(r)| <= |s|
    requires Holds(s, i, RenderAtom(a)) && Holds(s, i + |RenderAtom(a)|, [op] + Render(r))
    requires numOps <= i && |sub| <= numOps
    ensures var w := RenderAtom(a) + ([op] + Render(r));
            GroupScan(st, s, i, d, sub, numOps) == GroupScan(st, s, i + |w|, d, sub + w, numOps + |w|)
    decreases Chain(a, op, r), 1
  {
    var ra := RenderAtom(a);
    ScanInsideAtom(st, s, i, d, sub, numOps, a);
    ScanInsideRest(st, s, i + |ra|, d, sub + ra, numOps + |ra|, op, r);
    ScanGlue(st, s, i, d, d, d, sub, numOps, ra, [op] + Render(r), ra + ([op] + Render(r)));
  }

  /** The same over an operator and the expression after it. */
  lemma {:induction false} ScanInsideRest(st: LowerState, s: seq<string>, j: nat, d: int, sub: seq<string>, numOps: nat,
                                          op: string, r: Expr)
    requires WellFormed(r) && d >= 1 && op in ArithOps
    requires j + |[op] + Render(r)| <= |s| && Holds(s, j, [op] + Render(r))
    requires numOps <= j && |sub| <= numOps
    ensures GroupScan(st, s, j, d, sub, numOps) ==
            GroupScan(st, s, j + |[op] + Render(r)|, d, sub + ([op] + Render(r)), numOps + |[op] + Render(r)|)
    decreases r, 3
  {
    RestSlices(s, j, op, Render(r));
    ScanToken(st, s, j, d, sub, numOps);
    ScanInside(st, s, j + 1, d, sub + [op], numOps + 1, r);
    ScanGlue(st, s, j, d, d, d, sub, numOps, [op], Render(r), [op] + Render(r));
  }

  /** The same over one atom. */
  lemma {:induction false} ScanInsideAtom(st: LowerState, s: seq<string>, i: nat, d: int, sub: seq<string>, numOps: nat, a: Atom)
    requires WellFormedAtom(a) && d >= 1
    requires i + |RenderAtom(a)| <= |s| && Holds(s, i, RenderAtom(a))
    requires numOps <= i && |sub| <= numOps
    ensures GroupScan(st, s, i, d, sub, numOps) ==
            GroupScan(st, s, i + |RenderAtom(a)|, d, sub + RenderAtom(a), numOps + |RenderAtom(a)|)
    decreases a, 1
  {
    match a {
      case Operand(x) =>
        HoldsOne(s, i, x);
        ScanToken(st, s, i, d, sub, numOps);
      case Paren(inner) =>
        var p1 := ["("] + Render(inner);
        ScanInsideParen(st, s, i, d, sub, numOps, inner);
        ScanCloseInner(st, s, i + |p1|, d + 1, sub + p1, numOps + |p1|);
        ScanGlue(st, s, i, d, d + 1, d, sub, numOps, p1, [")"], RenderAtom(a));
    }
  }

  /** The same over an inner group up to its closing parenthesis. */
  lemma {:induction false} ScanInsideParen(st: LowerState, s: seq<string>, i: nat, d: int, sub: seq<string>, numOps: nat, inner: Expr)
    requires WellFormed(inner) && d >= 1
    requires i + |Render(inner)| + 2 <= |s| && Holds(s, i, ["("] + Render(inner) + [")"])
    requires numOps <= i && |sub| <= numOps
    ensures i + |["("] + Render(inner)| < |s| && s[i + |["("] + Render(inner)|] == ")"
    ensures GroupScan(st, s, i, d, sub, numOps) ==
            GroupScan(st, s, i + |["("] + Render(inner)|, d + 1, sub + (["("] + Render(inner)), numOps + |["("] + Render(inner)|)
    decreases Paren(inner), 0
  {
    var ri := Render(inner);
    ParenSlices(s, i, ri);
    ScanOpen(st, s, i, d, sub, numOps);
    ScanInside(st, s, i + 1, d + 1, sub + ["("], numOps + 1, inner);
    ScanGlue(st, s, i, d, d + 1, d + 1, sub, numOps, ["("], ri, ["("] + ri);
  }

  /** What an atom leaves in the buffer: an operand stays; a group is lowered
   *  on its own and leaves the most recent temporary. */
  function AtomLower(st: LowerState, a: Atom): (LowerState, string) {
    match a
    case Operand(x) => (st, x)
    case Paren(e) => var st1 := Lower(st, Render(e)).0; (st1, st1.recent)
  }

  /** Outside any group the parenthesis loop lowers a group at i on its own
   *  and puts the most recent temporary in its place. */
  lemma ScanGroupTop(st: LowerState, s: seq<string>, i: nat, e: Expr)
    requires WellFormed(e)
    requires i + |Render(e)| + 2 <= |s| && Holds(s, i, ["("] + Render(e) + [")"])
    ensures var st1 := Lower(st, Render(e)).0;
            GroupScan(st, s, i, 0, [], 0) ==
            GroupScan(st1, s[..i] + [st1.recent] + s[i + |Render(e)| + 2..], i + 1, 0, [], 0)
  {
    var w := Render(e);
    ParenSlices(s, i, w);
    ScanOpen(st, s, i, 0, [], 0);
    ScanInside(st, s, i + 1, 1, [], 1, e);
    assert [] + w == w;
    ScanCloseGroup(st, s, i + 1 + |w|, w, 1 + |w|);
  }

  /** Outside any group the parenthesis loop replaces the atom at |pre| by
   *  what it lowers to and carries on just after it. */
  lemma ScanAtom(st: LowerState, pre: seq<string>, a: Atom, post: seq<string>)
    requires WellFormedAtom(a)
    ensures var (st1, t) := AtomLower(st, a);
            GroupScan(st, pre + RenderAtom(a) + post, |pre|, 0, [], 0) ==
            GroupScan(st1, pre + [t] + post, |pre| + 1, 0, [], 0)
  {
    var s := pre + RenderAtom(a) + post;
    AtomSlice(pre, RenderAtom(a), post);
    match a {
      case Operand(x) =>
        HoldsOne(s, |pre|, x);
        ScanToken(st, s, |pre|, 0, [], 0);
      case Paren(e) =>
        ScanGroupTop(st, s, |pre|, e);
        Splice(pre, RenderAtom(a), post, Lower(st, Render(e)).0.recent);
    }
  }

  /** Outside any group the parenthesis loop passes over tokens that are no
   *  parentheses. */
  lemma {:induction false} GroupScanSkip(st: LowerState, s: seq<string>, i: nat, j: nat)
    requires i <= j <= |s| && forall k :: i <= k < j ==> s[k] != "(" && s[k] != ")"
    ensures GroupScan(st, s, i, 0, [], 0) == GroupScan(st, s, j, 0, [], 0)
    decreases j - i
  {
    if i < j {
      ScanToken(st, s, i, 0, [], 0);
      GroupScanSkip(st, s, i + 1, j);
    }
  }

  /** The most recent temporary stays an operand through any reductions. */
  lemma RecentOperand(st: LowerState, st': LowerState)
    requires Extends(st, st') && IsOperand(st.recent)
    ensures IsOperand(st'.recent)
  {
    if st'.tempCount > st.tempCount {
      TempIsOperand(st'.tempCount - 1);
    }
  }

  /** A group anywhere in the buffer, however deeply nested inside, is
   *  lowered on its own before anything after it, and lowering then goes on
   *  over the buffer with the group replaced by its temporary. Applied again
   *  and again, it lowers every group innermost first, left to right. */
  lemma GroupInPlace(st: LowerState, pre: seq<string>, e: Expr, post: seq<string>)
    requires WellFormed(e) && IsOperand(st.recent)
    requires forall j :: 0 <= j < |pre| ==> pre[j] != "(" && pre[j] != ")"
    ensures var st1 := Lower(st, Render(e)).0;
            Lower(st, pre + ["("] + Render(e) + [")"] + post) == Lower(st1, pre + [st1.recent] + post)
  {
    var s := pre + RenderAtom(Paren(e)) + post;
    assert s == pre + ["("] + Render(e) + [")"] + post;
    GroupScanSkip(st, s, 0, |pre|);
    ScanAtom(st, pre, Paren(e), post);
    var st1 := Lower(st, Render(e)).0;
    LowerExtends(st, Render(e));
    RecentOperand(st, st1);
    var s' := pre + [st1.recent] + post;
    GroupScanSkip(st1, s', 0, |pre| + 1);
  }

  /** What an atom leaves in the buffer is an operand, and lowering it makes
   *  one temporary per operator inside it. */
  lemma {:induction false} AtomFacts(st: LowerState, a: Atom)
    requires WellFormedAtom(a) && IsOperand(st.recent)
    ensures var (st1, t) := AtomLower(st, a);
            IsOperand(t) && IsOperand(st1.recent) && st1.tempCount == st.tempCount + CountIn(RenderAtom(a), ArithOps)
    decreases a, 0
  {
    match a {
      case Operand(x) =>
        assert [x][1..] == [];
      case Paren(inner) =>
        LowerCount(st, inner);
        ParenCount(Render(inner));
    }
  }

  /** Outside any group the parenthesis loop passes an operator. */
  lemma ScanTopOp(st: LowerState, st1: LowerState, s0: seq<string>, s1: seq<string>, s2: seq<string>, i: nat, op: string)
    requires i + 1 < |s1| && i <= |s0| && s1[i + 1] == op && op in ArithOps && s1 == s2
    requires GroupScan(st, s0, i, 0, [], 0) == GroupScan(st1, s1, i + 1, 0, [], 0)
    ensures GroupScan(st, s0, i, 0, [], 0) == GroupScan(st1, s2, i + 2, 0, [], 0)
  {
    ScanToken(st1, s1, i + 1, 0, [], 0);
  }

  /** Outside any group the parenthesis loop passes a lone atom and stops. */
  lemma ScanTopSingle(st: LowerState, pre: seq<string>, a: Atom)
    requires WellFormedAtom(a)
    ensures var (st1, t) := AtomLower(st, a);
            GroupScan(st, pre + Render(Single(a)), |pre|, 0, [], 0) == (st1, pre + [t])
  {
    var (st1, t) := AtomLower(st, a);
    assert pre + Render(Single(a)) == pre + RenderAtom(a) + [];
    ScanAtom(st, pre, a, []);
    assert pre + [t] + [] == pre + [t];
  }

  /** Outside any group the parenthesis loop turns the rendering of e into an
   *  alternating buffer, one operand per atom of e, having reduced every
   *  operator inside its groups. */
  lemma {:induction false} ScanTop(st: LowerState, pre: seq<string>, e: Expr)
    requires WellFormed(e) && IsOperand(st.recent)
    ensures var (st', g) := GroupScan(st, pre + Render(e), |pre|, 0, [], 0);
            IsOperand(st'.recent) && |pre| <= |g| && g[..|pre|] == pre && Alternating(g[|pre|..]) &&
            st'.tempCount + CountIn(g[|pre|..], ArithOps) == st.tempCount + CountIn(Render(e), ArithOps)
    decreases e, 1
  {
    AtomFacts(st, e.a);
    var (st1, t) := AtomLower(st, e.a);
    match e {
      case Single(a) =>
        ScanTopSingle(st, pre, a);
        SingleTail(pre, t);
      case Chain(a, op, r) =>
        ChainTopSeqs(pre, a, op, r, t);
        ScanAtom(st, pre, a, [op] + Render(r));
        ScanTopOp(st, st1, pre + RenderAtom(a) + ([op] + Render(r)), pre + [t] + ([op] + Render(r)),
                  pre + [t, op] + Render(r), |pre|, op);
        ScanTop(st1, pre + [t, op], r);
        ChainTail(pre, t, op, GroupScan(st1, pre + [t, op] + Render(r), |pre| + 2, 0, [], 0).1);
        ChainCount(a, op, r);
    }
  }

  /** Lowering keeps the most recent temporary an operand. */
  lemma LowerRecent(st: LowerState, s: seq<string>)
    requires IsOperand(st.recent)
    ensures IsOperand(Lower(st, s).0.recent)
  {
    LowerExtends(st, s);
    RecentOperand(st, Lower(st, s).0);
  }

  /** Lowering appends one node per reduction. */
  lemma LowerNodes(st: LowerState, s: seq<string>)
    ensures |Lower(st, s).0.nodes| == |st.nodes| + Reductions(st, Lower(st, s).0)
  {
    LowerExtends(st, s);
  }

  /** The two passes over an alternating buffer reduce every operator, one
   *  temporary each, and leave one token. */
  lemma PassesFlat(st: LowerState, g: seq<string>)
    requires Alternating(g)
    ensures var (st', r) := Passes(st, g);
            st'.tempCount == st.tempCount + CountIn(g, ArithOps) && CountIn(g, ArithOps) == (|g| - 1) / 2 && |r| == 1
  {
    var (st2, m) := Pass(st, MulOps, [], g);
    assert [] + g == g;
    PassFlat(st, MulOps, AddOps, [], g);
    assert [] + m == m;
    PassFlat(st2, AddOps, MulOps, [], m);
    assert MulOps + AddOps == ArithOps;
    CountInUnion(g, MulOps, AddOps);
    assert g[0..] == g;
    AlternatingOperators(g, 0);
  }

  /** interpretTree on a well-formed buffer with groups nested to any depth
   *  emits exactly one node per MULT, DIV, ADD and SUB token and reduces the
   *  buffer to a single token. */
  lemma {:induction false} LowerCount(st: LowerState, e: Expr)
    requires WellFormed(e) && IsOperand(st.recent)
    ensures var (st', r) := Lower(st, Render(e));
            IsOperand(st'.recent) && st'.tempCount == st.tempCount + CountIn(Render(e), ArithOps) &&
            |st'.nodes| == |st.nodes| + CountIn(Render(e), ArithOps) && |r| == 1
    decreases e, 2
  {
    assert [] + Render(e) == Render(e);
    ScanTop(st, [], e);
    var (st1, g) := GroupScan(st, Render(e), 0, 0, [], 0);
    assert g[0..] == g;
    PassesFlat(st1, g);
    LowerNodes(st, Render(e));
    LowerRecent(st, Render(e));
  }

  /** Lowering declares only temporaries. */
  lemma ExtendsDeclaresTemps(st: LowerState, st': LowerState)
    requires Extends(st, st')
    ensures var es, es' := Lookup(st.table, st.depth), Lookup(st'.table, st.depth);
            |es| <= |es'| && es'[..|es|] == es &&
            forall i :: |es| <= i < |es'| ==> IsTemp(es'[i].identifier)
  {
    var es, es' := Lookup(st.table, st.depth), Lookup(st'.table, st.depth);
    forall i | |es| <= i < |es'|
      ensures IsTemp(es'[i].identifier)
    {
      assert es'[|es|..][i - |es|] == es'[i];
      assert Made(st.scope, st'.nodes[|st.nodes|..][i - |es|], es'[i], st.tempCount + (i - |es|));
    }
  }

  /** Lowering keeps the current scope's layout: locals stay at their slots,
   *  globals stay unnamed, and locals declared before every temporary stay
   *  so (what modifyTempVarAltNames needs). */
  lemma ExtendsKeepsLayout(st: LowerState, st': LowerState)
    requires Extends(st, st')
    ensures var es, es' := Lookup(st.table, st.depth), Lookup(st'.table, st.depth);
            (LocalsNamed(es) ==> LocalsNamed(es')) &&
            (GlobalsUnnamed(es) ==> GlobalsUnnamed(es')) &&
            (LocalsFirst(es) ==> LocalsFirst(es'))
  {
    ExtendsDeclaresTemps(st, st');
    var es, es' := Lookup(st.table, st.depth), Lookup(st'.table, st.depth);
    assert forall i :: 0 <= i < |es| ==> es'[i] == es[i] by {
      forall i | 0 <= i < |es|
        ensures es'[i] == es[i]
      {
        assert es'[..|es|][i] == es'[i];
      }
    }
  }
}
