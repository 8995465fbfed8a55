/** The records the driver passes around (driver.h): variable entries, IR
 *  nodes, function records, and the naming constants of driver.cpp. */
module Records {
  import opened Text

  datatype Option<T> = None | Some(value: T)

  /** littleTypes */
  datatype LittleType = INT | FLOAT | STRING | VOID

  /** VarStruct_s: a declared variable (or parameter) and its storage name.
   *  altName is "r<k>" for a temporary, "$-<k>" for a local, "$<k>" for a
   *  parameter and empty for a global. */
  datatype VarEntry = VarEntry(ty: LittleType, identifier: string, value: string, altName: string)

  /** The ifFlags field of an IR node: 0 none, 1 starts an if, 2 starts an
   *  else, 3 ends an if. */
  datatype Marker = NoMarker | StartsIf | StartsElse | EndsIf

  function MarkerCode(m: Marker): (c: int)
    ensures 0 <= c <= 3
  {
    match m
    case NoMarker => 0
    case StartsIf => 1
    case StartsElse => 2
    case EndsIf => 3
  }

  function MarkerOfCode(c: int): (m: Option<Marker>)
    ensures m.Some? <==> 0 <= c <= 3
  {
    if c == 0 then Some(NoMarker)
    else if c == 1 then Some(StartsIf)
    else if c == 2 then Some(StartsElse)
    else if c == 3 then Some(EndsIf)
    else None
  }

  /** The integer codes and the markers are in one-to-one correspondence. */
  lemma MarkerCodeRoundTrip(m: Marker, c: int)
    ensures MarkerOfCode(MarkerCode(m)) == Some(m)
    ensures MarkerOfCode(c).Some? ==> MarkerCode(MarkerOfCode(c).value) == c
  {
  }

  /** IRNode: one three-address instruction. */
  datatype IRNode = IRNode(opCode: string, op1: string, op2: string, result: string, ifFlags: Marker)

  /** funcStruct_s: what the driver records about a declared function. */
  datatype FuncRecord = FuncRecord(
    name: string,
    params: seq<VarEntry>,
    retType: LittleType,
    retLoc: string,
    assVar: string,
    retVals: seq<string>)

  const GlobalScope: string := "0GLOBAL_SCOPE_RESERVED"
  const TempLabelPrefix: string := "lpTmpLbl"
  const TempVarPrefix: string := "lpTmpVar"
  const TempVarLen: nat := 8
  const MaxRegisters: nat := 4
  const StackOffset: nat := 6
  /** The value of mostRecentTempVar before any temporary exists. */
  const NoTempYet: string := "!0!"

  /** A node with every field cleared. */
  const ClearedNode: IRNode := IRNode("", "", "", "", NoMarker)

  /** A function record as a fresh funcStruct_s: no parameters, no return
   *  values; the return type, which the source leaves uninitialised, is VOID. */
  function NewFunction(name: string): (f: FuncRecord)
    ensures f.name == name && f.params == [] && f.retVals == []
  {
    FuncRecord(name, [], VOID, "", "", [])
  }

  /** Whether an identifier denotes a compiler temporary (it contains the
   *  temporary prefix anywhere, as the search in the source does). */
  predicate IsTemp(ident: string) {
    Contains(ident, TempVarPrefix)
  }

  /** The name of the n-th temporary. */
  function TempName(n: nat): (s: string)
    ensures IsTemp(s)
    ensures |s| > TempVarLen && s[TempVarLen..] == NatToString(n)
  {
    ContainsOwnPrefix(TempVarPrefix, NatToString(n));
    TempVarPrefix + NatToString(n)
  }

  /** The name of the n-th generated label. */
  function LabelName(n: nat): (s: string)
    ensures |s| > 8 && s[..8] == TempLabelPrefix && s[8..] == NatToString(n)
  {
    TempLabelPrefix + NatToString(n)
  }

  /** Temporaries and labels are fresh: different counters, different names. */
  lemma TempNamesDistinct(m: nat, n: nat)
    ensures TempName(m) == TempName(n) ==> m == n
    ensures LabelName(m) == LabelName(n) ==> m == n
  {
    PrefixedInjective(TempVarPrefix, m, n);
    PrefixedInjective(TempLabelPrefix, m, n);
  }

  /** The storage name "r<k>" of register or temporary k. */
  function RegName(k: nat): string {
    "r" + NatToString(k)
  }

  /** The storage name "$-<k>" of the k-th local slot. */
  function LocalSlot(k: nat): string {
    "$-" + NatToString(k)
  }

  /** The storage name "$<k>" of the k-th stack slot above the frame. */
  function ParamSlot(k: nat): string {
    "$" + NatToString(k)
  }

  /** Whether some entry of es declares identifier s. */
  predicate Declares(es: seq<VarEntry>, s: string)
    ensures Declares(es, s) <==> exists i :: 0 <= i < |es| && es[i].identifier == s
  {
    if es == [] then false
    else es[0].identifier == s || (assert forall i :: 1 <= i < |es| ==> es[1..][i - 1] == es[i]; Declares(es[1..], s))
  }
}
