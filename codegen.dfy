/** The Tiny code generator (driver.cpp tinyGeneration .. tinyGenerateNormalCode):
 *  operand renaming to storage names, the scratch register, one block of Tiny
 *  instructions per IR node, and the program frame around them. A small
 *  machine over named cells and a value stack gives the straight-line blocks
 *  a meaning, so that what the blocks compute can be stated. */
module CodeGen {
  import opened Text
  import opened Records
  import opened Functions
  import opened Symbols

  /** One line of Tiny code: a mnemonic and its space-separated arguments. */
  datatype Instr = Instr(mnemonic: string, args: seq<string>)

  function JoinArgs(args: seq<string>): string {
    if args == [] then "" else " " + args[0] + JoinArgs(args[1..])
  }

  /** The text tinyStream receives for one instruction (without the newline). */
  function Render(i: Instr): string {
    i.mnemonic + JoinArgs(i.args)
  }

  function Lines(ins: seq<Instr>): (ls: seq<string>)
    ensures |ls| == |ins| && forall k :: 0 <= k < |ins| ==> ls[k] == Render(ins[k])
  {
    if ins == [] then [] else [Render(ins[0])] + Lines(ins[1..])
  }

  /** op1, op2 and result of a node as renameVars sees them. */
  datatype Operands = Operands(op1: string, op2: string, result: string)

  function OperandsOf(n: IRNode): Operands {
    Operands(n.op1, n.op2, n.result)
  }

  // ---------------------------------------------------------------------
  // renameVars

  /** One entry of the scan: the else-if chain renames the first of op1,
   *  op2, result that equals the entry's identifier, and no other. */
  function RenameOne(o: Operands, e: VarEntry): Operands {
    if o.op1 == e.identifier then o.(op1 := e.altName)
    else if o.op2 == e.identifier then o.(op2 := e.altName)
    else if o.result == e.identifier then o.(result := e.altName)
    else o
  }

  /** The scan over a list of entries, in order. */
  function RenameAll(o: Operands, es: seq<VarEntry>): Operands
    decreases |es|
  {
    if es == [] then o else RenameOne(RenameAll(o, es[..|es| - 1]), es[|es| - 1])
  }

  /** The storage name of the first entry of es declaring x, or x itself. */
  function Subst(es: seq<VarEntry>, x: string): (r: string)
    ensures !Declares(es, x) ==> r == x
    ensures Declares(es, x) ==> exists i :: 0 <= i < |es| && es[i].identifier == x && r == es[i].altName
    decreases |es|
  {
    if es == [] then x
    else
      var init := es[..|es| - 1];
      assert forall i :: 0 <= i < |init| ==> init[i] == es[i];
      if Declares(init, x) then Subst(init, x)
      else if es[|es| - 1].identifier == x then es[|es| - 1].altName
      else x
  }

  /** No identifier is declared twice in es. */
  predicate DistinctIdents(es: seq<VarEntry>) {
    forall i, j :: 0 <= i < j < |es| ==> es[i].identifier != es[j].identifier
  }

  /** No storage name of es is also an identifier of es. */
  predicate AltsApart(es: seq<VarEntry>) {
    forall i, j :: 0 <= i < |es| && 0 <= j < |es| ==> es[i].altName != es[j].identifier
  }

  /** An entry is declared in es when it is declared before the last entry
   *  or by the last entry. */
  lemma DeclaresInit(es: seq<VarEntry>, x: string)
    requires es != []
    ensures Declares(es, x) <==> Declares(es[..|es| - 1], x) || es[|es| - 1].identifier == x
  {
    var init := es[..|es| - 1];
    if Declares(es, x) {
      var i :| 0 <= i < |es| && es[i].identifier == x;
      if i < |init| {
        assert init[i].identifier == x;
      }
    }
    if Declares(init, x) {
      var i :| 0 <= i < |init| && init[i].identifier == x;
      assert es[i].identifier == x;
    }
  }

  lemma InitKeeps(es: seq<VarEntry>)
    requires es != [] && DistinctIdents(es) && AltsApart(es)
    ensures DistinctIdents(es[..|es| - 1]) && AltsApart(es[..|es| - 1])
    ensures Declares(es[..|es| - 1], es[|es| - 1].identifier) == false
    ensures forall x :: Declares(es, x) <==> Declares(es[..|es| - 1], x) || es[|es| - 1].identifier == x
  {
    var init := es[..|es| - 1];
    assert forall i :: 0 <= i < |init| ==> init[i] == es[i];
    forall x
      ensures Declares(es, x) <==> Declares(init, x) || es[|es| - 1].identifier == x
    {
      DeclaresInit(es, x);
    }
  }

  /** What the scan leaves in a field is its original name or the storage
   *  name of some entry, and never an identifier declared in es. */
  lemma SubstNotIdent(es: seq<VarEntry>, x: string, y: string)
    requires AltsApart(es) && Declares(es, x) && Declares(es, y)
    ensures Subst(es, x) != y
  {
  }

  /** With distinct identifiers and storage names apart from them, op1 is
   *  always renamed to the storage name of the entry declaring it. */
  lemma {:induction false} RenameOp1(o: Operands, es: seq<VarEntry>)
    requires DistinctIdents(es) && AltsApart(es)
    ensures RenameAll(o, es).op1 == Subst(es, o.op1)
    decreases |es|
  {
    if es != [] {
      var init := es[..|es| - 1];
      var e := es[|es| - 1];
      InitKeeps(es);
      RenameOp1(o, init);
      if Declares(init, o.op1) {
        SubstNotIdent(es, o.op1, e.identifier);
        assert Subst(init, o.op1) == Subst(es, o.op1);
      }
    }
  }

  /** One entry of the scan, for the op2 field: d1, d2 say whether op1, op2
   *  are declared before the entry e, and s1, s2 are their storage names there. */
  lemma Op2Step(o: Operands, r: Operands, e: VarEntry, d1: bool, d2: bool, s1: string, s2: string)
    requires r.op1 == s1 && (!d1 ==> s1 == o.op1) && (d1 ==> s1 != e.identifier && o.op1 != e.identifier)
    requires r.op2 == (if o.op2 == o.op1 && d1 then o.op2 else s2)
    requires (!d2 ==> s2 == o.op2) && (d2 ==> s2 != e.identifier && o.op2 != e.identifier)
    ensures RenameOne(r, e).op2 ==
              if o.op2 == o.op1 && (d1 || e.identifier == o.op1) then o.op2
              else if d2 then s2 else if e.identifier == o.op2 then e.altName else o.op2
  {
  }

  /** op2 is renamed to the storage name of the entry declaring it, except
   *  when it equals op1 and op1 is declared: then the entry renames op1
   *  and op2 keeps its source name. */
  lemma {:induction false} RenameOp2(o: Operands, es: seq<VarEntry>)
    requires DistinctIdents(es) && AltsApart(es)
    ensures RenameAll(o, es).op2 ==
              if o.op2 == o.op1 && Declares(es, o.op1) then o.op2 else Subst(es, o.op2)
    decreases |es|
  {
    if es != [] {
      var init := es[..|es| - 1];
      var e := es[|es| - 1];
      InitKeeps(es);
      RenameOp1(o, init);
      RenameOp2(o, init);
      var d1, d2 := Declares(init, o.op1), Declares(init, o.op2);
      if d1 {
        SubstNotIdent(es, o.op1, e.identifier);
      }
      if d2 {
        SubstNotIdent(es, o.op2, e.identifier);
      }
      Op2Step(o, RenameAll(o, init), e, d1, d2, Subst(init, o.op1), Subst(init, o.op2));
    }
  }

  /** One entry of the scan, for the result field: d1, d2, dr say whether
   *  op1, op2, result are declared before the entry e, and s1, s2, sr are
   *  their storage names there. */
  lemma ResultStep(o: Operands, r: Operands, e: VarEntry, d1: bool, d2: bool, dr: bool, s1: string, s2: string, sr: string)
    requires r.op1 == s1 && (!d1 ==> s1 == o.op1) && (d1 ==> s1 != e.identifier && o.op1 != e.identifier)
    requires r.op2 == (if o.op2 == o.op1 && d1 then o.op2 else s2)
    requires (!d2 ==> s2 == o.op2) && (d2 ==> s2 != e.identifier && o.op2 != e.identifier)
    requires r.result == (if (o.result == o.op1 && d1) || (o.result == o.op2 && d2) then o.result else sr)
    requires (!dr ==> sr == o.result) && (dr ==> sr != e.identifier && o.result != e.identifier)
    ensures RenameOne(r, e).result ==
              if (o.result == o.op1 && (d1 || e.identifier == o.op1)) || (o.result == o.op2 && (d2 || e.identifier == o.op2))
              then o.result
              else if dr then sr else if e.identifier == o.result then e.altName else o.result
  {
  }

  /** result is renamed to the storage name of the entry declaring it,
   *  unless it equals a declared op1 or op2, which take the rename. */
  lemma {:induction false} RenameResult(o: Operands, es: seq<VarEntry>)
    requires DistinctIdents(es) && AltsApart(es)
    ensures RenameAll(o, es).result ==
              if (o.result == o.op1 && Declares(es, o.op1)) || (o.result == o.op2 && Declares(es, o.op2))
              then o.result else Subst(es, o.result)
    decreases |es|
  {
    if es != [] {
      var init := es[..|es| - 1];
      var e := es[|es| - 1];
      InitKeeps(es);
      RenameOp1(o, init);
      RenameOp2(o, init);
      RenameResult(o, init);
      var d1, d2, dr := Declares(init, o.op1), Declares(init, o.op2), Declares(init, o.result);
      if d1 {
        SubstNotIdent(es, o.op1, e.identifier);
      }
      if d2 {
        SubstNotIdent(es, o.op2, e.identifier);
      }
      if dr {
        SubstNotIdent(es, o.result, e.identifier);
      }
      ResultStep(o, RenameAll(o, init), e, d1, d2, dr, Subst(init, o.op1), Subst(init, o.op2), Subst(init, o.result));
    }
  }

  /** What the generator knows while it walks the nodes: the node lists'
   *  symbol table, the scope names, the function records, and the driver's
   *  scope string that getType consults for parameters. */
  datatype Ctx = Ctx(t: SymbolTable, sv: seq<string>, fs: seq<FuncRecord>, scope: string)

  /** renameVars: nothing in the global scope; otherwise the entries of the
   *  first scope named cs, then the parameters of f. */
  function Renamed(c: Ctx, cs: string, f: FuncRecord, o: Operands): Operands {
    if cs == GlobalScope then o
    else
      var k := ScopeIndex(c.sv, cs);
      var local := if k != -1 then RenameAll(o, Lookup(c.t, k)) else o;
      RenameAll(local, f.params)
  }

  /** The scan loop over one list of entries. */
  method RenameLoop(o: Operands, es: seq<VarEntry>) returns (r: Operands)
    ensures r == RenameAll(o, es)
  {
    r := o;
    var i := 0;
    while i < |es|
      invariant 0 <= i <= |es|
      invariant r == RenameAll(o, es[..i])
    {
      assert es[..i + 1][..i] == es[..i];
      r := RenameOne(r, es[i]);
      i := i + 1;
    }
    assert es[..i] == es;
  }

  /** The search of scopeVec for a scope name: its 1-based position, or -1. */
  method FindScope(sv: seq<string>, name: string) returns (k: int)
    ensures k == ScopeIndex(sv, name)
  {
    k := -1;
    var i := 0;
    while i < |sv|
      invariant 0 <= i <= |sv|
      invariant k == -1 ==> name !in sv[..i]
      invariant k != -1 ==> k == ScopeIndex(sv, name)
    {
      if sv[i] == name {
        assert name !in sv[..i];
        k := i + 1;
        assert sv[..k - 1] == sv[..i];
        break;
      }
      assert sv[..i + 1] == sv[..i] + [sv[i]];
      i := i + 1;
    }
    if k == -1 {
      assert sv[..i] == sv;
    }
  }

  method RenameVars(c: Ctx, cs: string, f: FuncRecord, o: Operands) returns (r: Operands)
    ensures r == Renamed(c, cs, f, o)
  {
    r := o;
    if cs != GlobalScope {
      var k := FindScope(c.sv, cs);
      if k != -1 {
        r := RenameLoop(r, Lookup(c.t, k));
      }
      r := RenameLoop(r, f.params);
    }
  }

  // ---------------------------------------------------------------------
  // The scratch register

  predicate Among(o: Operands, s: string) {
    s == o.op1 || s == o.op2 || s == o.result
  }

  lemma RegNamesDistinct(i: nat, j: nat)
    ensures RegName(i) == RegName(j) ==> i == j
  {
    PrefixedInjective("r", i, j);
  }

  lemma RegNamesLow()
    ensures RegName(0) == "r0" && RegName(1) == "r1" && RegName(2) == "r2" && RegName(3) == "r3"
  {
    assert NatToString(0) == "0" && NatToString(1) == "1";
    assert NatToString(2) == "2" && NatToString(3) == "3";
  }

  /** The scratch register: the lowest r<k> that is none of the three
   *  (renamed) operands; three operands leave one of r0..r3 free. */
  function Scratch(o: Operands): (k: nat)
    ensures k < MaxRegisters && !Among(o, RegName(k))
    ensures forall j :: 0 <= j < k ==> Among(o, RegName(j))
  {
    RegNamesLow();
    if !Among(o, "r0") then 0
    else if !Among(o, "r1") then 1
    else if !Among(o, "r2") then 2
    else 3
  }

  function ScratchName(o: Operands): string {
    RegName(Scratch(o))
  }

  /** The search loop: start at r0 and step while the name is taken. */
  method FindScratch(o: Operands) returns (t: string)
    ensures t == ScratchName(o)
  {
    t := "r0";
    var k := 0;
    var found := false;
    assert t == RegName(0);
    while !found
      invariant k <= Scratch(o) && t == RegName(k)
      invariant found ==> k == Scratch(o)
      decreases MaxRegisters - k, if found then 0 else 1
    {
      if t == o.op1 || t == o.op2 || t == o.result {
        k := k + 1;
        t := "r" + NatToString(k);
      } else {
        found := true;
      }
    }
  }

  // ---------------------------------------------------------------------
  // Dispatch on the opcode

  /** The branch of tinyGenerateNormalCode a node takes, in the order the
   *  source tests them (an exact opcode or a substring of it), with the
   *  mnemonic the branch picks. */
  datatype NodeKind =
    | KLabel | KStore | KArith(mn: string) | KCmp(jump: string) | KJump
    | KSys(call: string) | KReturn | KJsr | KPush | KPop | KLink | KNone

  function Kind(op: string): NodeKind {
    if op == "LABEL" then KLabel
    else if Contains(op, "STORE") then KStore
    else if Contains(op, "ADD") then KArith(if op == "ADDI" then "addi" else "addr")
    else if Contains(op, "SUB") then KArith(if op == "SUBI" then "subi" else "subr")
    else if Contains(op, "DIV") then KArith(if op == "DIVI" then "divi" else "divr")
    else if Contains(op, "MULT") then KArith(if op == "MULTI" then "muli" else "mulr")
    else if op == "GE" then KCmp("jge")
    else if op == "LE" then KCmp("jle")
    else if op == "NE" then KCmp("jne")
    else if op == "JUMP" then KJump
    else if Contains(op, "WRITE") then
      KSys(if op == "WRITEI" then "writei" else if op == "WRITEF" then "writer" else "writes")
    else if Contains(op, "READ") then KSys(if op == "READI" then "readi" else "readr")
    else if op == "RETURN" then KReturn
    else if op == "JSR" then KJsr
    else if op == "PUSH" then KPush
    else if op == "POP" then KPop
    else if op == "LINK" then KLink
    else KNone
  }

  /** An arithmetic opcode gets the integer instruction exactly when it is
   *  the integer form itself; every other opcode of the family gets the
   *  real one. */
  lemma ArithIntegerExact(op: string)
    requires Kind(op).KArith?
    ensures Kind(op).mn in {"addi", "subi", "divi", "muli"} <==> op in {"ADDI", "SUBI", "DIVI", "MULTI"}
  {
    if op == "ADDI" || op == "SUBI" {
      AddSubIntegerKinds();
    } else if op == "DIVI" || op == "MULTI" {
      DivMulIntegerKinds();
    } else {
      assert Kind(op).mn in {"addr", "subr", "divr", "mulr"};
    }
  }

  lemma AddSubIntegerKinds()
    ensures Kind("ADDI") == KArith("addi") && Kind("SUBI") == KArith("subi")
  {
    assert !Contains("SUBI", "ADD") by {
      assert "SUBI"[0] != 'A' && "SUBI"[1] != 'A';
    }
  }

  lemma DivMulIntegerKinds()
    ensures Kind("DIVI") == KArith("divi") && Kind("MULTI") == KArith("muli")
  {
    MissingChar("DIVI", "STORE", 0);
    MissingChar("DIVI", "ADD", 0);
    MissingChar("DIVI", "SUB", 0);
    MissingChar("MULTI", "STORE", 0);
    MissingChar("MULTI", "ADD", 1);
    MissingChar("MULTI", "SUB", 0);
    MissingChar("MULTI", "DIV", 0);
    ContainsOwnPrefix("DIV", "I");
    assert "DIV" + "I" == "DIVI";
    ContainsOwnPrefix("MULT", "I");
    assert "MULT" + "I" == "MULTI";
  }

  // ---------------------------------------------------------------------
  // One node's block

  /** What the generator carries from node to node. */
  datatype Control = Control(start: bool, cs: string, f: FuncRecord, numRets: nat)

  /** The state before the first node: waiting for a function's label, in
   *  the global scope, with an empty function record. */
  const Initial: Control := Control(true, GlobalScope, NewFunction(""), 0)

  function PushReg(k: nat): Instr { Instr("push", [RegName(k)]) }
  function PopReg(k: nat): Instr { Instr("pop", [RegName(k)]) }

  /** push r0 .. push r(k-1) */
  function Pushes(k: nat): (r: seq<Instr>)
    ensures |r| == k && forall j :: 0 <= j < k ==> r[j] == PushReg(j)
  {
    if k == 0 then [] else Pushes(k - 1) + [PushReg(k - 1)]
  }

  /** pop r(k-1) .. pop r0 */
  function Pops(k: nat): (r: seq<Instr>)
    ensures |r| == k && forall j :: 0 <= j < k ==> r[j] == PopReg(k - 1 - j)
  {
    if k == 0 then [] else [PopReg(k - 1)] + Pops(k - 1)
  }

  /** Copy src to dst through the scratch register t, saving t around it. */
  function CopyVia(src: string, dst: string, t: string): seq<Instr> {
    [Instr("push", [t]), Instr("move", [src, t]), Instr("move", [t, dst]), Instr("pop", [t])]
  }

  /** A return may be generated only while a return value is left to read. */
  predicate CanGen(ctl: Control, n: IRNode) {
    Kind(n.opCode) == KReturn ==> ctl.numRets < |ctl.f.retVals|
  }

  /** The code for a return node: the current return value moved to the
   *  return slot (a literal directly, a variable through the scratch
   *  register), then unlnk and ret. */
  function ReturnBlock(c: Ctx, ctl: Control, t: string): seq<Instr>
    requires ctl.numRets < |ctl.f.retVals|
  {
    var f := ctl.f;
    var id := f.retVals[ctl.numRets];
    var save :=
      if f.retType != VOID && id != "" then
        if IsLiteral(id) then [Instr("move", [id, f.retLoc])]
        else CopyVia(Renamed(c, ctl.cs, f, Operands("", "", id)).result, f.retLoc, t)
      else [];
    save + [Instr("unlnk", []), Instr("ret", [])]
  }

  /** The instructions tinyGenerateNormalCode emits for node n when it takes
   *  branch k. */
  function Block(c: Ctx, ctl: Control, n: IRNode, k: NodeKind): seq<Instr>
    requires k == KReturn ==> ctl.numRets < |ctl.f.retVals|
  {
    var o := Renamed(c, ctl.cs, ctl.f, OperandsOf(n));
    var t := ScratchName(o);
    match k
    case KLabel => [Instr("label", [o.result])]
    case KStore => CopyVia(o.op1, o.result, t)
    case KArith(mn) => [Instr("move", [o.op1, o.result]), Instr(mn, [o.op2, o.result])]
    case KCmp(jump) =>
      var moved := !IsTemp(n.op2);
      var cmp := if TypeOf(c.t, |c.sv|, c.fs, c.scope, n) == FLOAT then "cmpr" else "cmpi";
      (if moved then [Instr("move", [o.op2, t])] else []) +
      [Instr(cmp, [o.op1, if moved then t else o.op2]), Instr(jump, [o.result])]
    case KJump => [Instr("jmp", [o.result])]
    case KSys(call) => [Instr("sys", [call, o.result])]
    case KReturn => ReturnBlock(c, ctl, t)
    case KJsr => Pushes(MaxRegisters) + [Instr("jsr", [o.result])] + Pops(MaxRegisters)
    case KPush => [Instr("push", [o.result])]
    case KPop => [Instr("pop", [o.result])]
    case KLink => [Instr("link", [NatToString(NumLocals(c.t, c.sv, ctl.cs))])]
    case KNone => []
  }

  /** The instructions tinyGenerateNormalCode emits for node n. */
  function NodeBlock(c: Ctx, ctl: Control, n: IRNode): seq<Instr>
    requires CanGen(ctl, n)
  {
    Block(c, ctl, n, Kind(n.opCode))
  }

  /** The control state after node n: a label met while waiting for a
   *  function enters it (its scope and record); a return reads the next
   *  return value, and the last one starts the wait again. */
  function NodeControl(c: Ctx, ctl: Control, n: IRNode): Control
    requires CanGen(ctl, n)
  {
    match Kind(n.opCode)
    case KLabel =>
      if ctl.start then
        var name := Renamed(c, ctl.cs, ctl.f, OperandsOf(n)).result;
        Control(false, name, FindFuncOr(c.fs, name, ctl.f), ctl.numRets)
      else ctl
    case KReturn =>
      if ctl.numRets == |ctl.f.retVals| - 1 then ctl.(start := true, numRets := 0)
      else ctl.(numRets := ctl.numRets + 1)
    case _ => ctl
  }

  /** Only a label met while waiting and a return change the control state:
   *  the label switches scope and record to the function it names (keeping
   *  the record when no function has that name); the return keeps both and
   *  counts, and the function's last return sets the wait and resets the
   *  count. */
  lemma ControlSpec(c: Ctx, ctl: Control, n: IRNode)
    requires CanGen(ctl, n)
    ensures var r := NodeControl(c, ctl, n);
            (Kind(n.opCode) != KLabel && Kind(n.opCode) != KReturn ==> r == ctl) &&
            (Kind(n.opCode) == KLabel && !ctl.start ==> r == ctl) &&
            (Kind(n.opCode) == KLabel && ctl.start ==>
              var name := Renamed(c, ctl.cs, ctl.f, OperandsOf(n)).result;
              !r.start && r.cs == name && r.numRets == ctl.numRets &&
              (FindFunc(c.fs, name).Some? ==> r.f == FindFunc(c.fs, name).value) &&
              (FindFunc(c.fs, name).None? ==> r.f == ctl.f)) &&
            (Kind(n.opCode) == KReturn ==>
              r.cs == ctl.cs && r.f == ctl.f && r.numRets < |r.f.retVals| &&
              (ctl.numRets + 1 == |ctl.f.retVals| ==> r.start && r.numRets == 0) &&
              (ctl.numRets + 1 < |ctl.f.retVals| ==> r.start == ctl.start && r.numRets == ctl.numRets + 1))
  {
  }

  /** The nodes in order; None when a return node finds no return value left
   *  to read (an out-of-range read in the source). */
  function GenAll(c: Ctx, ctl: Control, ns: seq<IRNode>): Option<(Control, seq<Instr>)>
    decreases |ns|
  {
    if ns == [] then Some((ctl, []))
    else
      match GenAll(c, ctl, ns[..|ns| - 1])
      case None => None
      case Some(p) =>
        var n := ns[|ns| - 1];
        if CanGen(p.0, n) then Some((NodeControl(c, p.0, n), p.1 + NodeBlock(c, p.0, n))) else None
  }

  lemma GenAllInit(c: Ctx, ctl: Control, ns: seq<IRNode>)
    requires ns != [] && GenAll(c, ctl, ns).Some?
    ensures GenAll(c, ctl, ns[..|ns| - 1]).Some?
  {
  }

  lemma {:induction false} GenAllPrefix(c: Ctx, ctl: Control, ns: seq<IRNode>, i: nat)
    requires i <= |ns| && GenAll(c, ctl, ns).Some?
    ensures GenAll(c, ctl, ns[..i]).Some?
    decreases |ns|
  {
    if i == |ns| {
      assert ns[..i] == ns;
    } else {
      var init := ns[..|ns| - 1];
      GenAllInit(c, ctl, ns);
      GenAllPrefix(c, ctl, init, i);
      assert init[..i] == ns[..i];
    }
  }

  /** How many of ns are return nodes. */
  function Returns(ns: seq<IRNode>): nat {
    if ns == [] then 0 else Returns(ns[..|ns| - 1]) + (if Kind(ns[|ns| - 1].opCode) == KReturn then 1 else 0)
  }

  /** Inside a function (after its label), every return reads the next
   *  return value; the nodes generate, the scope and record stay, and once
   *  all return values have been read the generator waits for the next
   *  function's label with the counter reset. */
  lemma {:induction false} ReturnsCycle(c: Ctx, ctl: Control, ns: seq<IRNode>)
    requires !ctl.start
    requires ns != [] ==> ctl.numRets + Returns(ns[..|ns| - 1]) < |ctl.f.retVals|
    requires ns == [] ==> ctl.numRets < |ctl.f.retVals|
    ensures GenAll(c, ctl, ns).Some?
    ensures var r := GenAll(c, ctl, ns).value.0;
            r.cs == ctl.cs && r.f == ctl.f &&
            (ctl.numRets + Returns(ns) == |ctl.f.retVals| ==> r.start && r.numRets == 0) &&
            (ctl.numRets + Returns(ns) < |ctl.f.retVals| ==> !r.start && r.numRets == ctl.numRets + Returns(ns))
    decreases |ns|
  {
    if ns != [] {
      var init := ns[..|ns| - 1];
      var n := ns[|ns| - 1];
      ReturnsCycle(c, ctl, init);
      var p := GenAll(c, ctl, init).value;
      assert !p.0.start && p.0.numRets == ctl.numRets + Returns(init);
      ControlSpec(c, p.0, n);
      assert GenAll(c, ctl, ns) == Some((NodeControl(c, p.0, n), p.1 + NodeBlock(c, p.0, n)));
    }
  }

  // ---------------------------------------------------------------------
  // The program

  /** tinyVariableDeclaration: "var x" or "str x value" for each global
   *  that is not a temporary, in declaration order. */
  function Decls(es: seq<VarEntry>): (r: seq<Instr>)
    decreases |es|
  {
    if es == [] then []
    else
      var e := es[|es| - 1];
      Decls(es[..|es| - 1]) +
      (if IsTemp(e.identifier) then []
       else if e.ty != STRING then [Instr("var", [e.identifier])]
       else [Instr("str", [e.identifier, e.value])])
  }

  /** The declared name of a declaration line. */
  function DeclName(i: Instr): string {
    if |i.args| > 0 then i.args[0] else ""
  }

  /** One declaration per global that is not a temporary, and each names a
   *  global that is not a temporary. */
  lemma {:induction false} DeclsSpec(es: seq<VarEntry>)
    ensures |Decls(es)| + CountTemps(es) == |es|
    ensures forall k :: 0 <= k < |Decls(es)| ==>
              exists j :: 0 <= j < |es| && !IsTemp(es[j].identifier) && DeclName(Decls(es)[k]) == es[j].identifier
    decreases |es|
  {
    if es != [] {
      var init := es[..|es| - 1];
      var e := es[|es| - 1];
      DeclsSpec(init);
      assert es == init + [e];
      CountTempsAppend(init, [e]);
      assert CountTemps([e]) == CountTemps([e][1..]) + (if IsTemp(e.identifier) then 1 else 0);
      forall k | 0 <= k < |Decls(es)|
        ensures exists j :: 0 <= j < |es| && !IsTemp(es[j].identifier) && DeclName(Decls(es)[k]) == es[j].identifier
      {
        if k < |Decls(init)| {
          var j :| 0 <= j < |init| && !IsTemp(init[j].identifier) && DeclName(Decls(init)[k]) == init[j].identifier;
          assert es[j] == init[j];
        } else {
          assert DeclName(Decls(es)[k]) == e.identifier;
        }
      }
    }
  }

  /** The fixed start: a pushed slot for main's return value, the four
   *  registers, the call of main and the halt. */
  function Prologue(): seq<Instr> {
    [Instr("push", [])] + Pushes(MaxRegisters) + [Instr("jsr", ["main"]), Instr("sys", ["halt"])]
  }

  /** tinyGeneration over a node list: declarations, prologue, the nodes'
   *  code, end. */
  function Program(c: Ctx, nodes: seq<IRNode>): Option<seq<Instr>> {
    match GenAll(c, Initial, nodes)
    case None => None
    case Some(p) => Some(Decls(Lookup(c.t, 0)) + Prologue() + p.1 + [Instr("end", [])])
  }

  /** The frame of the program: it opens with one declaration per global
   *  that is not a temporary, then push, push r0 .. push r3, jsr main and
   *  sys halt; it closes with end; between them is the nodes' code. */
  lemma ProgramFrame(c: Ctx, nodes: seq<IRNode>)
    requires Program(c, nodes).Some?
    ensures var p := Program(c, nodes).value;
            var d := |Lookup(c.t, 0)| - CountTemps(Lookup(c.t, 0));
            |p| >= d + 8 &&
            p[d] == Instr("push", []) &&
            (forall k :: 0 <= k < MaxRegisters ==> p[d + 1 + k] == PushReg(k)) &&
            p[d + 5] == Instr("jsr", ["main"]) && p[d + 6] == Instr("sys", ["halt"]) &&
            p[d + 7..|p| - 1] == GenAll(c, Initial, nodes).value.1 &&
            p[|p| - 1] == Instr("end", [])
  {
    DeclsSpec(Lookup(c.t, 0));
    var p := Program(c, nodes).value;
    var ds := Decls(Lookup(c.t, 0));
    var body := GenAll(c, Initial, nodes).value.1;
    assert p == ds + Prologue() + body + [Instr("end", [])];
    assert p[|ds|..|ds| + 7] == Prologue();
    assert p[|ds| + 7..|p| - 1] == body;
  }

  /** tinyVariableDeclaration's loop over the globals. */
  method DeclareGlobals(es: seq<VarEntry>) returns (out: seq<Instr>)
    ensures out == Decls(es)
  {
    out := [];
    var i := 0;
    while i < |es|
      invariant 0 <= i <= |es|
      invariant out == Decls(es[..i])
    {
      assert es[..i + 1][..i] == es[..i];
      var e := es[i];
      if !IsTemp(e.identifier) {
        if e.ty != STRING {
          out := out + [Instr("var", [e.identifier])];
        } else {
          out := out + [Instr("str", [e.identifier, e.value])];
        }
      }
      i := i + 1;
    }
    assert es[..i] == es;
  }

  /** tinyPushRegisters / tinyPopRegisters. */
  method PushRegisters() returns (out: seq<Instr>)
    ensures out == Pushes(MaxRegisters)
  {
    out := [];
    for i := 0 to MaxRegisters
      invariant out == Pushes(i)
    {
      out := out + [PushReg(i)];
    }
  }

  method PopRegisters() returns (out: seq<Instr>)
    ensures out == Pops(MaxRegisters)
  {
    out := [];
    var i := MaxRegisters;
    while i > 0
      invariant 0 <= i <= MaxRegisters
      invariant out + Pops(i) == Pops(MaxRegisters)
    {
      i := i - 1;
      out := out + [PopReg(i)];
    }
  }

  /** tinyGenerateNormalCode's loop: each node renamed, its scratch register
   *  found, its block emitted and the control state advanced. */
  method GenerateNormalCode(c: Ctx, nodes: seq<IRNode>) returns (out: seq<Instr>)
    requires GenAll(c, Initial, nodes).Some?
    ensures out == GenAll(c, Initial, nodes).value.1
  {
    var ctl := Initial;
    out := [];
    var i := 0;
    while i < |nodes|
      invariant 0 <= i <= |nodes|
      invariant GenAll(c, Initial, nodes[..i]) == Some((ctl, out))
    {
      GenAllPrefix(c, Initial, nodes, i + 1);
      assert nodes[..i + 1][..i] == nodes[..i];
      var n := nodes[i];
      out := out + NodeBlock(c, ctl, n);
      ctl := NodeControl(c, ctl, n);
      i := i + 1;
    }
    assert nodes[..i] == nodes;
  }

  // ---------------------------------------------------------------------
  // What the blocks compute

  /** Named cells (registers, variables, stack slots) and the value stack. */
  datatype Machine = Machine(cells: map<string, int>, stack: seq<int>)

  function Val(m: Machine, x: string): int {
    if x in m.cells then m.cells[x] else 0
  }

  /** The arithmetic instructions: the destination is combined with the source. */
  function Combine(mn: string, src: int, dst: int): Option<int> {
    if mn == "addi" || mn == "addr" then Some(dst + src)
    else if mn == "subi" || mn == "subr" then Some(dst - src)
    else if mn == "muli" || mn == "mulr" then Some(dst * src)
    else None
  }

  /** One instruction; None for the ones that jump, call, compare, divide or
   *  do I/O, which this machine does not give a meaning. A pop with an
   *  empty name drops the value. */
  function Exec(m: Machine, i: Instr): Option<Machine> {
    if i.mnemonic == "push" && |i.args| == 1 then
      Some(m.(stack := m.stack + [Val(m, i.args[0])]))
    else if i.mnemonic == "pop" && |i.args| == 1 then
      if m.stack == [] then None
      else
        var top := m.stack[|m.stack| - 1];
        var cells := if i.args[0] == "" then m.cells else m.cells[i.args[0] := top];
        Some(Machine(cells, m.stack[..|m.stack| - 1]))
    else if i.mnemonic == "move" && |i.args| == 2 then
      Some(m.(cells := m.cells[i.args[1] := Val(m, i.args[0])]))
    else if |i.args| == 2 && Combine(i.mnemonic, 0, 0).Some? then
      var v := Combine(i.mnemonic, Val(m, i.args[0]), Val(m, i.args[1])).value;
      Some(m.(cells := m.cells[i.args[1] := v]))
    else None
  }

  function ExecAll(m: Machine, ins: seq<Instr>): Option<Machine>
    decreases |ins|
  {
    if ins == [] then Some(m)
    else match Exec(m, ins[0])
      case None => None
      case Some(m1) => ExecAll(m1, ins[1..])
  }

  lemma {:induction false} ExecAppend(m: Machine, a: seq<Instr>, b: seq<Instr>)
    ensures ExecAll(m, a + b) == (match ExecAll(m, a) case None => None case Some(m1) => ExecAll(m1, b))
    decreases |a|
  {
    if a != [] {
      assert (a + b)[1..] == a[1..] + b;
      match Exec(m, a[0])
      case None =>
      case Some(m1) => ExecAppend(m1, a[1..], b);
    } else {
      assert a + b == b;
    }
  }

  /** Copying through a scratch register that is not the destination sets
   *  the destination to the source's value and changes nothing else: the
   *  scratch register gets its value back from the stack. */
  lemma CopyViaCopies(m: Machine, src: string, dst: string, t: string)
    requires t != dst && t != ""
    ensures ExecAll(m, CopyVia(src, dst, t)).Some?
    ensures var m' := ExecAll(m, CopyVia(src, dst, t)).value;
            m'.stack == m.stack && forall x :: Val(m', x) == if x == dst then Val(m, src) else Val(m, x)
  {
    var m1 := m.(stack := m.stack + [Val(m, t)]);
    var m2 := m1.(cells := m1.cells[t := Val(m1, src)]);
    var m3 := m2.(cells := m2.cells[dst := Val(m2, t)]);
    var m4 := Machine(m3.cells[t := Val(m, t)], m.stack);
    assert m3.stack == m.stack + [Val(m, t)];
    assert ExecAll(m3, [Instr("pop", [t])]) == Some(m4);
    assert ExecAll(m2, CopyVia(src, dst, t)[2..]) == Some(m4);
    assert ExecAll(m, CopyVia(src, dst, t)) == Some(m4);
  }

  lemma RegNameNonEmpty(k: nat)
    ensures RegName(k) != "" && RegName(k)[0] == 'r'
  {
  }

  /** A store node's code moves the renamed op1 into the renamed result and
   *  leaves every other cell and the stack as they were; this is why the
   *  scratch register must differ from the result. */
  lemma StoreMoves(c: Ctx, ctl: Control, n: IRNode, m: Machine)
    requires Kind(n.opCode) == KStore
    ensures var o := Renamed(c, ctl.cs, ctl.f, OperandsOf(n));
            ExecAll(m, NodeBlock(c, ctl, n)).Some? &&
            var m' := ExecAll(m, NodeBlock(c, ctl, n)).value;
            m'.stack == m.stack && forall x :: Val(m', x) == if x == o.result then Val(m, o.op1) else Val(m, x)
  {
    var o := Renamed(c, ctl.cs, ctl.f, OperandsOf(n));
    RegNameNonEmpty(Scratch(o));
    CopyViaCopies(m, o.op1, o.result, ScratchName(o));
  }

  /** An add, subtract or multiply node's code leaves op1 combined with op2
   *  in result (result := op1 + op2, op1 - op2, op1 * op2), changing no
   *  other cell, provided op2 is not the result itself. */
  lemma ArithComputes(c: Ctx, ctl: Control, n: IRNode, m: Machine)
    requires Kind(n.opCode).KArith? && Combine(Kind(n.opCode).mn, 0, 0).Some?
    requires var o := Renamed(c, ctl.cs, ctl.f, OperandsOf(n)); o.op2 != o.result
    ensures var o := Renamed(c, ctl.cs, ctl.f, OperandsOf(n));
            ExecAll(m, NodeBlock(c, ctl, n)).Some? &&
            var m' := ExecAll(m, NodeBlock(c, ctl, n)).value;
            m'.stack == m.stack &&
            Val(m', o.result) == Combine(Kind(n.opCode).mn, Val(m, o.op2), Val(m, o.op1)).value &&
            forall x :: x != o.result ==> Val(m', x) == Val(m, x)
  {
    var o := Renamed(c, ctl.cs, ctl.f, OperandsOf(n));
    var mn := Kind(n.opCode).mn;
    var m1 := m.(cells := m.cells[o.result := Val(m, o.op1)]);
    var v := Combine(mn, Val(m1, o.op2), Val(m1, o.result)).value;
    var m2 := m1.(cells := m1.cells[o.result := v]);
    var b := NodeBlock(c, ctl, n);
    assert b == [Instr("move", [o.op1, o.result]), Instr(mn, [o.op2, o.result])];
    assert Exec(m, b[0]) == Some(m1);
    assert Exec(m1, b[1]) == Some(m2);
    assert ExecAll(m2, b[2..]) == Some(m2);
    assert ExecAll(m1, b[1..]) == Some(m2);
  }

  /** The comparison block over plain names: op2 is copied into t first
   *  when moved, and the compare then reads op1 and op2's value. */
  lemma CmpExec(m: Machine, op1: string, op2: string, t: string, moved: bool, cmp: string, jump: string, res: string, b: seq<Instr>)
    requires t != op1
    requires b == (if moved then [Instr("move", [op2, t])] else []) +
                  [Instr(cmp, [op1, if moved then t else op2]), Instr(jump, [res])]
    ensures |b| >= 2 && |b[|b| - 2].args| == 2 &&
            ExecAll(m, b[..|b| - 2]).Some? &&
            var m' := ExecAll(m, b[..|b| - 2]).value;
            Val(m', b[|b| - 2].args[0]) == Val(m, op1) && Val(m', b[|b| - 2].args[1]) == Val(m, op2)
  {
    var tail := [Instr(cmp, [op1, if moved then t else op2]), Instr(jump, [res])];
    if moved {
      var head := [Instr("move", [op2, t])];
      assert b[..|b| - 2] == head && b[|b| - 2] == tail[0];
      assert head[1..] == [];
      assert ExecAll(m, head) == Some(m.(cells := m.cells[t := Val(m, op2)]));
    } else {
      assert b[..|b| - 2] == [] && b[|b| - 2] == tail[0];
    }
  }

  /** A comparison node compares the values op1 and op2 had: op2, when it
   *  is not a temporary, is first copied into the scratch register, which
   *  is not op1. */
  lemma CompareOperands(c: Ctx, ctl: Control, n: IRNode, m: Machine)
    requires Kind(n.opCode).KCmp?
    ensures var o := Renamed(c, ctl.cs, ctl.f, OperandsOf(n));
            var b := NodeBlock(c, ctl, n);
            |b| >= 2 && |b[|b| - 2].args| == 2 &&
            ExecAll(m, b[..|b| - 2]).Some? &&
            var m' := ExecAll(m, b[..|b| - 2]).value;
            Val(m', b[|b| - 2].args[0]) == Val(m, o.op1) && Val(m', b[|b| - 2].args[1]) == Val(m, o.op2)
  {
    var o := Renamed(c, ctl.cs, ctl.f, OperandsOf(n));
    var t := ScratchName(o);
    var cmp := if TypeOf(c.t, |c.sv|, c.fs, c.scope, n) == FLOAT then "cmpr" else "cmpi";
    CmpExec(m, o.op1, o.op2, t, !IsTemp(n.op2), cmp, Kind(n.opCode).jump, o.result, NodeBlock(c, ctl, n));
  }

  /** The values r0 .. r(k-1) hold. */
  function RegVals(m: Machine, k: nat): (r: seq<int>)
    ensures |r| == k && forall j :: 0 <= j < k ==> r[j] == Val(m, RegName(j))
  {
    if k == 0 then [] else RegVals(m, k - 1) + [Val(m, RegName(k - 1))]
  }

  predicate IsLowReg(x: string, k: nat) {
    exists j :: 0 <= j < k && x == RegName(j)
  }

  lemma {:induction false} PushesSave(m: Machine, k: nat)
    ensures ExecAll(m, Pushes(k)) == Some(m.(stack := m.stack + RegVals(m, k)))
    decreases k
  {
    if k > 0 {
      PushesSave(m, k - 1);
      ExecAppend(m, Pushes(k - 1), [PushReg(k - 1)]);
      var v := Val(m, RegName(k - 1));
      var m1 := m.(stack := m.stack + RegVals(m, k - 1));
      assert Exec(m1, PushReg(k - 1)) == Some(m1.(stack := m1.stack + [v]));
      assert [PushReg(k - 1)][1..] == [];
      assert m1.stack + [v] == m.stack + RegVals(m, k);
    } else {
      assert m.stack + [] == m.stack;
    }
  }

  lemma {:induction false} PopsRestore(m: Machine, s: seq<int>, vs: seq<int>, k: nat)
    requires |vs| == k && m.stack == s + vs
    ensures ExecAll(m, Pops(k)).Some?
    ensures var m' := ExecAll(m, Pops(k)).value;
            m'.stack == s &&
            (forall j :: 0 <= j < k ==> Val(m', RegName(j)) == vs[j]) &&
            (forall x :: !IsLowReg(x, k) ==> Val(m', x) == Val(m, x))
    decreases k
  {
    if k > 0 {
      var top := vs[k - 1];
      assert m.stack[|m.stack| - 1] == top;
      assert m.stack[..|m.stack| - 1] == s + vs[..k - 1];
      var m1 := Machine(m.cells[RegName(k - 1) := top], s + vs[..k - 1]);
      RegNameNonEmpty(k - 1);
      assert Exec(m, PopReg(k - 1)) == Some(m1);
      assert Pops(k)[1..] == Pops(k - 1);
      PopsRestore(m1, s, vs[..k - 1], k - 1);
      var m' := ExecAll(m, Pops(k)).value;
      assert m' == ExecAll(m1, Pops(k - 1)).value;
      forall j | 0 <= j < k
        ensures Val(m', RegName(j)) == vs[j]
      {
        if j == k - 1 {
          assert !IsLowReg(RegName(k - 1), k - 1) by {
            forall i | 0 <= i < k - 1 ensures RegName(k - 1) != RegName(i) {
              RegNamesDistinct(k - 1, i);
            }
          }
        }
      }
      forall x | !IsLowReg(x, k)
        ensures Val(m', x) == Val(m, x)
      {
        assert x != RegName(k - 1);
        assert !IsLowReg(x, k - 1);
      }
    } else {
      assert s + vs == s;
    }
  }

  /** The registers saved around a call come back: after push r0 .. push r3,
   *  any callee that leaves the stack as it found it, and pop r3 .. pop r0,
   *  r0 .. r3 hold their values from before the call and the stack is as
   *  before; every other cell keeps what the callee left. */
  lemma RegistersRestored(m: Machine, callee: Machine)
    requires ExecAll(m, Pushes(MaxRegisters)).Some?
    requires callee.stack == ExecAll(m, Pushes(MaxRegisters)).value.stack
    ensures ExecAll(callee, Pops(MaxRegisters)).Some?
    ensures var m' := ExecAll(callee, Pops(MaxRegisters)).value;
            m'.stack == m.stack &&
            (forall j :: 0 <= j < MaxRegisters ==> Val(m', RegName(j)) == Val(m, RegName(j))) &&
            (forall x :: !IsLowReg(x, MaxRegisters) ==> Val(m', x) == Val(callee, x))
  {
    PushesSave(m, MaxRegisters);
    PopsRestore(callee, m.stack, RegVals(m, MaxRegisters), MaxRegisters);
  }

  /** A call node's code is the call bracketed by those pushes and pops. */
  lemma JsrBracket(c: Ctx, ctl: Control, n: IRNode)
    requires Kind(n.opCode) == KJsr
    ensures var b := NodeBlock(c, ctl, n);
            |b| == 2 * MaxRegisters + 1 && b[..MaxRegisters] == Pushes(MaxRegisters) &&
            b[MaxRegisters] == Instr("jsr", [Renamed(c, ctl.cs, ctl.f, OperandsOf(n)).result]) &&
            b[MaxRegisters + 1..] == Pops(MaxRegisters)
  {
    var b := NodeBlock(c, ctl, n);
    assert b == Pushes(MaxRegisters) + [Instr("jsr", [Renamed(c, ctl.cs, ctl.f, OperandsOf(n)).result])] + Pops(MaxRegisters);
    assert b[..MaxRegisters] == Pushes(MaxRegisters);
    assert b[MaxRegisters + 1..] == Pops(MaxRegisters);
  }

  /** A variable returned from a function whose return slot is a stack slot
   *  ("$k", as addReturnToFunc makes it) ends up in that slot; nothing else
   *  changes. */
  lemma ReturnValueMoves(c: Ctx, ctl: Control, n: IRNode, m: Machine)
    requires Kind(n.opCode) == KReturn && ctl.numRets < |ctl.f.retVals|
    requires var id := ctl.f.retVals[ctl.numRets]; ctl.f.retType != VOID && id != "" && !IsLiteral(id)
    requires |ctl.f.retLoc| > 0 && ctl.f.retLoc[0] == '$'
    ensures var id := ctl.f.retVals[ctl.numRets];
            var name := Renamed(c, ctl.cs, ctl.f, Operands("", "", id)).result;
            var b := NodeBlock(c, ctl, n);
            |b| == 6 && ExecAll(m, b[..4]).Some? &&
            var m' := ExecAll(m, b[..4]).value;
            m'.stack == m.stack && forall x :: Val(m', x) == if x == ctl.f.retLoc then Val(m, name) else Val(m, x)
  {
    var id := ctl.f.retVals[ctl.numRets];
    var name := Renamed(c, ctl.cs, ctl.f, Operands("", "", id)).result;
    var o := Renamed(c, ctl.cs, ctl.f, OperandsOf(n));
    var t := ScratchName(o);
    RegNameNonEmpty(Scratch(o));
    var b := NodeBlock(c, ctl, n);
    assert b == CopyVia(name, ctl.f.retLoc, t) + [Instr("unlnk", []), Instr("ret", [])];
    assert b[..4] == CopyVia(name, ctl.f.retLoc, t);
    CopyViaCopies(m, name, ctl.f.retLoc, t);
  }

  /** A link node reserves one slot per local of the function's scope that
   *  is not a temporary. */
  lemma LinkCountsLocals(c: Ctx, ctl: Control, n: IRNode)
    requires Kind(n.opCode) == KLink
    ensures var es := Lookup(c.t, ScopeIndex(c.sv, ctl.cs));
            exists k: nat :: NodeBlock(c, ctl, n) == [Instr("link", [NatToString(k)])] && k + CountTemps(es) == |es| &&
                             k == |NonTempPositions(es)|
  {
    var k := NumLocals(c.t, c.sv, ctl.cs);
    assert NodeBlock(c, ctl, n) == [Instr("link", [NatToString(k)])];
  }

  /** How many instructions of ins have mnemonic mn. */
  function Count(ins: seq<Instr>, mn: string): nat {
    if ins == [] then 0 else (if ins[0].mnemonic == mn then 1 else 0) + Count(ins[1..], mn)
  }

  lemma {:induction false} CountAppend(a: seq<Instr>, b: seq<Instr>, mn: string)
    ensures Count(a + b, mn) == Count(a, mn) + Count(b, mn)
    decreases |a|
  {
    if a != [] {
      assert (a + b)[1..] == a[1..] + b;
      CountAppend(a[1..], b, mn);
    } else {
      assert a + b == b;
    }
  }

  lemma {:induction false} PushesPops(k: nat)
    ensures Count(Pushes(k), "push") == k && Count(Pushes(k), "pop") == 0
    ensures Count(Pops(k), "pop") == k && Count(Pops(k), "push") == 0
    decreases k
  {
    if k > 0 {
      PushesPops(k - 1);
      CountAppend(Pushes(k - 1), [PushReg(k - 1)], "push");
      CountAppend(Pushes(k - 1), [PushReg(k - 1)], "pop");
      assert Pops(k)[1..] == Pops(k - 1);
    }
  }

  /** No instruction of b has mnemonic mn. */
  predicate Without(b: seq<Instr>, mn: string) {
    forall i :: 0 <= i < |b| ==> b[i].mnemonic != mn
  }

  lemma {:induction false} CountWithout(b: seq<Instr>, mn: string)
    requires Without(b, mn)
    ensures Count(b, mn) == 0
    decreases |b|
  {
    if b != [] {
      CountWithout(b[1..], mn);
    }
  }

  lemma CopyViaCounts(src: string, dst: string, t: string)
    ensures Count(CopyVia(src, dst, t), "push") == 1 && Count(CopyVia(src, dst, t), "pop") == 1
  {
    var b := CopyVia(src, dst, t);
    CountWithout(b[1..], "push");
    CountWithout(b[..3], "pop");
    CountWithout([b[3]], "push");
    assert b == b[..3] + [b[3]];
    CountAppend(b[..3], [b[3]], "pop");
  }

  /** A block with neither pushes nor pops is balanced. */
  lemma NoStackBalanced(b: seq<Instr>)
    requires Without(b, "push") && Without(b, "pop")
    ensures Count(b, "push") == Count(b, "pop")
  {
    CountWithout(b, "push");
    CountWithout(b, "pop");
  }

  lemma JsrBalanced(r: string)
    ensures var b := Pushes(MaxRegisters) + [Instr("jsr", [r])] + Pops(MaxRegisters);
            Count(b, "push") == Count(b, "pop")
  {
    var j := [Instr("jsr", [r])];
    PushesPops(MaxRegisters);
    CountWithout(j, "push");
    CountWithout(j, "pop");
    CountAppend(Pushes(MaxRegisters) + j, Pops(MaxRegisters), "push");
    CountAppend(Pushes(MaxRegisters) + j, Pops(MaxRegisters), "pop");
    CountAppend(Pushes(MaxRegisters), j, "push");
    CountAppend(Pushes(MaxRegisters), j, "pop");
  }

  lemma ReturnBalanced(c: Ctx, ctl: Control, t: string)
    requires ctl.numRets < |ctl.f.retVals|
    ensures Count(ReturnBlock(c, ctl, t), "push") == Count(ReturnBlock(c, ctl, t), "pop")
  {
    var f := ctl.f;
    var id := f.retVals[ctl.numRets];
    var tail := [Instr("unlnk", []), Instr("ret", [])];
    var save :=
      if f.retType != VOID && id != "" then
        if IsLiteral(id) then [Instr("move", [id, f.retLoc])]
        else CopyVia(Renamed(c, ctl.cs, f, Operands("", "", id)).result, f.retLoc, t)
      else [];
    assert ReturnBlock(c, ctl, t) == save + tail;
    CountAppend(save, tail, "push");
    CountAppend(save, tail, "pop");
    NoStackBalanced(tail);
    CountWithout(tail, "push");
    if f.retType != VOID && id != "" && !IsLiteral(id) {
      CopyViaCounts(Renamed(c, ctl.cs, f, Operands("", "", id)).result, f.retLoc, t);
    } else {
      NoStackBalanced(save);
    }
  }

  /** The branches that touch the stack only through a saved scratch
   *  register or the saved registers of a call. */
  lemma SavingBalanced(c: Ctx, ctl: Control, n: IRNode, k: NodeKind)
    requires k == KJsr || k == KStore || (k == KReturn && ctl.numRets < |ctl.f.retVals|)
    ensures Count(Block(c, ctl, n, k), "push") == Count(Block(c, ctl, n, k), "pop")
  {
    var o := Renamed(c, ctl.cs, ctl.f, OperandsOf(n));
    var t := ScratchName(o);
    match k
    case KJsr => JsrBalanced(o.result);
    case KReturn => ReturnBalanced(c, ctl, t);
    case KStore => CopyViaCounts(o.op1, o.result, t);
  }

  /** The comparison branches touch no stack. */
  lemma CmpBalanced(c: Ctx, ctl: Control, n: IRNode, jump: string)
    requires jump != "push" && jump != "pop"
    ensures Count(Block(c, ctl, n, KCmp(jump)), "push") == Count(Block(c, ctl, n, KCmp(jump)), "pop")
  {
    var b := Block(c, ctl, n, KCmp(jump));
    assert forall i :: 0 <= i < |b| ==> b[i].mnemonic in {"move", "cmpr", "cmpi", jump};
    NoStackBalanced(b);
  }

  /** The remaining branches touch no stack either. */
  lemma PlainBalanced(c: Ctx, ctl: Control, n: IRNode, k: NodeKind)
    requires k.KArith? || k == KLabel || k == KJump || k.KSys? || k == KLink || k == KNone
    requires k.KArith? ==> k.mn != "push" && k.mn != "pop"
    ensures Count(Block(c, ctl, n, k), "push") == Count(Block(c, ctl, n, k), "pop")
  {
    var b := Block(c, ctl, n, k);
    assert |b| <= 2 && forall i :: 0 <= i < |b| ==> b[i].mnemonic in {"move", "label", "jmp", "sys", "link", if k.KArith? then k.mn else "move"};
    NoStackBalanced(b);
  }

  /** Every branch other than an explicit push or pop emits as many pushes
   *  as pops. */
  lemma BlockBalanced(c: Ctx, ctl: Control, n: IRNode, k: NodeKind)
    requires (k == KReturn ==> ctl.numRets < |ctl.f.retVals|) && k != KPush && k != KPop
    requires k.KArith? ==> k.mn != "push" && k.mn != "pop"
    requires k.KCmp? ==> k.jump != "push" && k.jump != "pop"
    ensures Count(Block(c, ctl, n, k), "push") == Count(Block(c, ctl, n, k), "pop")
  {
    if k == KJsr || k == KStore || k == KReturn {
      SavingBalanced(c, ctl, n, k);
    } else if k.KCmp? {
      CmpBalanced(c, ctl, n, k.jump);
    } else {
      PlainBalanced(c, ctl, n, k);
    }
  }

  /** Every node other than an explicit push or pop leaves the stack depth
   *  as it found it: its code has as many pushes as pops. */
  lemma NodeBalanced(c: Ctx, ctl: Control, n: IRNode)
    requires CanGen(ctl, n) && Kind(n.opCode) != KPush && Kind(n.opCode) != KPop
    ensures Count(NodeBlock(c, ctl, n), "push") == Count(NodeBlock(c, ctl, n), "pop")
  {
    BlockBalanced(c, ctl, n, Kind(n.opCode));
  }
}
