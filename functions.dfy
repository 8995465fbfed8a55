/** The function list (the driver's fs vector): creating records, adding
 *  parameters, return types and return values, and looking records up by
 *  name (driver.cpp, createFunction .. popRetVal, isFunctionParameter). */
module Functions {
  import opened Text
  import opened Records

  /** Index of the first record named s, or |fs| when there is none. */
  function FindIndex(fs: seq<FuncRecord>, s: string): (k: nat)
    ensures k <= |fs|
    ensures k < |fs| ==> fs[k].name == s
    ensures forall j :: 0 <= j < k ==> fs[j].name != s
  {
    if fs == [] then 0
    else if fs[0].name == s then 0
    else 1 + FindIndex(fs[1..], s)
  }

  /** findFuncData as a query: the first record named s, if any. */
  function FindFunc(fs: seq<FuncRecord>, s: string): (r: Option<FuncRecord>)
    ensures r.None? <==> forall j :: 0 <= j < |fs| ==> fs[j].name != s
    ensures r.Some? ==> exists k :: 0 <= k < |fs| && fs[k] == r.value && r.value.name == s
                                    && forall j :: 0 <= j < k ==> fs[j].name != s
  {
    var k := FindIndex(fs, s);
    if k < |fs| then Some(fs[k]) else None
  }

  /** findFuncData(s, f): f becomes the first record named s; when there is
   *  none, f keeps whatever it held. */
  function FindFuncOr(fs: seq<FuncRecord>, s: string, f: FuncRecord): (g: FuncRecord)
    ensures FindFunc(fs, s).Some? ==> g == FindFunc(fs, s).value
    ensures FindFunc(fs, s).None? ==> g == f
  {
    match FindFunc(fs, s)
    case Some(h) => h
    case None => f
  }

  /** overwriteFuncData(f): the first record with f's name is replaced by f;
   *  without one, the list is unchanged. */
  function Overwrite(fs: seq<FuncRecord>, f: FuncRecord): (fs': seq<FuncRecord>)
    ensures |fs'| == |fs|
    ensures FindFunc(fs, f.name).Some? ==> FindFunc(fs', f.name) == Some(f)
    ensures FindFunc(fs, f.name).None? ==> fs' == fs
    ensures forall j :: 0 <= j < |fs| && j != FindIndex(fs, f.name) ==> fs'[j] == fs[j]
  {
    var k := FindIndex(fs, f.name);
    if k < |fs| then FindIndexAt(fs[k := f], f.name, k); fs[k := f] else fs
  }

  /** The first record named s is found where it is. */
  lemma FindIndexAt(fs: seq<FuncRecord>, s: string, k: nat)
    requires k < |fs| && fs[k].name == s
    requires forall j :: 0 <= j < k ==> fs[j].name != s
    ensures FindIndex(fs, s) == k
  {
  }

  /** Overwriting leaves the lookup of every other name as it was. */
  lemma OverwriteKeepsOthers(fs: seq<FuncRecord>, f: FuncRecord, s: string)
    requires s != f.name
    ensures FindFunc(Overwrite(fs, f), s) == FindFunc(fs, s)
  {
    var fs' := Overwrite(fs, f);
    var k := FindIndex(fs, s);
    var w := FindIndex(fs, f.name);
    forall j | 0 <= j < |fs|
      ensures fs'[j].name == s <==> fs[j].name == s
    {
      if j == w {
        assert fs'[j].name == f.name && fs[j].name == f.name;
      }
    }
    SameNamesSameIndex(fs, fs', s);
    if k < |fs| {
      assert k != w;
      assert fs'[k] == fs[k];
    }
  }

  /** Two lists that agree on where the name s sits find it at the same index. */
  lemma {:induction false} SameNamesSameIndex(a: seq<FuncRecord>, b: seq<FuncRecord>, s: string)
    requires |a| == |b| && forall j :: 0 <= j < |a| ==> (a[j].name == s <==> b[j].name == s)
    ensures FindIndex(a, s) == FindIndex(b, s)
    decreases |a|
  {
    if a != [] && a[0].name != s {
      assert forall j :: 0 <= j < |a| - 1 ==> a[1..][j] == a[j + 1] && b[1..][j] == b[j + 1];
      SameNamesSameIndex(a[1..], b[1..], s);
    }
  }

  /** isFunctionParameter(s, v): v is a parameter of the first function named s. */
  predicate IsFunctionParameter(fs: seq<FuncRecord>, s: string, v: string)
  {
    match FindFunc(fs, s)
    case Some(f) => Declares(f.params, v)
    case None => false
  }

  /** The parameters of f sit in consecutive stack slots "$6", "$7", ... */
  ghost predicate ParamsNumbered(f: FuncRecord) {
    forall k :: 0 <= k < |f.params| ==> f.params[k].altName == ParamSlot(StackOffset + k)
  }

  /** addParamToFunc on one record: the parameter takes the next stack slot. */
  function AddParam(f: FuncRecord, name: string, ty: LittleType): (g: FuncRecord)
    ensures |g.params| == |f.params| + 1 && g.params[..|f.params|] == f.params
    ensures ParamsNumbered(f) ==> ParamsNumbered(g)
  {
    f.(params := f.params + [VarEntry(ty, name, "", ParamSlot(StackOffset + |f.params|))])
  }

  /** addReturnToFunc on one record: the return value goes to the slot above
   *  the parameters. */
  function AddReturn(f: FuncRecord, ty: LittleType): (g: FuncRecord)
    ensures g.retType == ty && g.params == f.params && g.retVals == f.retVals
  {
    f.(retType := ty, retLoc := ParamSlot(StackOffset + |f.params|))
  }

  /** The return slot of a record whose parameters are numbered is different
   *  from every parameter's slot, and the parameters' slots are pairwise
   *  different: arguments and the result never share a stack cell. */
  lemma ReturnSlotSeparate(f: FuncRecord, ty: LittleType)
    requires ParamsNumbered(f)
    ensures forall k :: 0 <= k < |f.params| ==> f.params[k].altName != AddReturn(f, ty).retLoc
    ensures forall i, j :: 0 <= i < j < |f.params| ==> f.params[i].altName != f.params[j].altName
  {
    forall k | 0 <= k < |f.params|
      ensures f.params[k].altName != AddReturn(f, ty).retLoc
    {
      PrefixedInjective("$", StackOffset + k, StackOffset + |f.params|);
    }
    forall i, j | 0 <= i < j < |f.params|
      ensures f.params[i].altName != f.params[j].altName
    {
      PrefixedInjective("$", StackOffset + i, StackOffset + j);
    }
  }
}
