/** The symbol table: one list of entries per scope, keyed by the scope's
 *  position (0 for globals, k for the k-th function scope opened), with the
 *  queries the driver runs over it (driver.cpp insertSymbolTableEntry,
 *  getType, getNumLocals, getNumLocalsAndTemps, isGlobalVariable,
 *  modifyTempVarAltNames). */
module Symbols {
  import opened Text
  import opened Records
  import opened Functions

  type SymbolTable = map<int, seq<VarEntry>>

  /** symbolTable[k] as operator[] reads it: a scope never filled reads as empty. */
  function Lookup(t: SymbolTable, k: int): seq<VarEntry> {
    if k in t then t[k] else []
  }

  /** The storage name insertSymbolTableEntry gives a new entry when pos
   *  entries already sit in the current scope. */
  function AltNameFor(scope: string, ident: string, pos: nat): (a: string)
    ensures scope == GlobalScope ==> a == ""
    ensures scope != GlobalScope && !IsTemp(ident) ==> a == LocalSlot(pos + 1)
    ensures scope != GlobalScope && IsTemp(ident) ==> |ident| >= TempVarLen && a == "r" + ident[TempVarLen..]
  {
    if scope != GlobalScope then
      if IsTemp(ident) then
        ContainsLength(ident, TempVarPrefix);
        "r" + ident[TempVarLen..]
      else LocalSlot(pos + 1)
    else ""
  }

  /** insertSymbolTableEntry: the entry is appended to the scope at depth
   *  (the number of scopes opened so far); no other scope changes. */
  function Insert(t: SymbolTable, depth: nat, scope: string, ty: LittleType, ident: string, value: string): (t': SymbolTable)
    ensures Lookup(t', depth) == Lookup(t, depth) + [VarEntry(ty, ident, value, AltNameFor(scope, ident, |Lookup(t, depth)|))]
    ensures forall k :: k != depth ==> Lookup(t', k) == Lookup(t, k)
    ensures t'.Keys == t.Keys + {depth}
  {
    var es := Lookup(t, depth);
    t[depth := es + [VarEntry(ty, ident, value, AltNameFor(scope, ident, |es|))]]
  }

  /** Every non-temporary entry of a function scope is stored at "$-(i+1)",
   *  i its position in the scope. */
  ghost predicate LocalsNamed(es: seq<VarEntry>) {
    forall i :: 0 <= i < |es| && !IsTemp(es[i].identifier) ==> es[i].altName == LocalSlot(i + 1)
  }

  /** Every non-temporary global has no storage name: it is addressed by its
   *  own identifier. */
  ghost predicate GlobalsUnnamed(es: seq<VarEntry>) {
    forall i :: 0 <= i < |es| && !IsTemp(es[i].identifier) ==> es[i].altName == ""
  }

  /** Inserting into a function scope keeps its locals at their slots, and
   *  two locals of one scope never share a slot. */
  lemma InsertKeepsLocalsNamed(t: SymbolTable, depth: nat, scope: string, ty: LittleType, ident: string, value: string)
    requires scope != GlobalScope && LocalsNamed(Lookup(t, depth))
    ensures LocalsNamed(Lookup(Insert(t, depth, scope, ty, ident, value), depth))
    ensures forall i, j :: (0 <= i < j < |Lookup(t, depth)| && !IsTemp(Lookup(t, depth)[i].identifier)
                            && !IsTemp(Lookup(t, depth)[j].identifier)) ==>
              Lookup(t, depth)[i].altName != Lookup(t, depth)[j].altName
  {
    var es := Lookup(t, depth);
    var e := VarEntry(ty, ident, value, AltNameFor(scope, ident, |es|));
    var es' := Lookup(Insert(t, depth, scope, ty, ident, value), depth);
    assert es' == es + [e];
    forall i | 0 <= i < |es'| && !IsTemp(es'[i].identifier)
      ensures es'[i].altName == LocalSlot(i + 1)
    {
      if i < |es| {
        assert es'[i] == es[i];
      } else {
        assert es'[i] == e;
      }
    }
    forall i, j | 0 <= i < j < |es| && !IsTemp(es[i].identifier) && !IsTemp(es[j].identifier)
      ensures es[i].altName != es[j].altName
    {
      PrefixedInjective("$-", i + 1, j + 1);
    }
  }

  /** An entry whose identifier is one of the node's three fields. */
  predicate Mentions(e: VarEntry, n: IRNode) {
    e.identifier == n.result || e.identifier == n.op1 || e.identifier == n.op2
  }

  /** An entry that settles getType's first search: it mentions the node and
   *  its type is INT, FLOAT or STRING (a VOID entry is passed over). */
  predicate Settles(e: VarEntry, n: IRNode) {
    Mentions(e, n) && e.ty != VOID
  }

  /** The type of the first entry of es that settles the search. */
  function FirstTyped(es: seq<VarEntry>, n: IRNode): (r: Option<LittleType>)
    ensures r.None? <==> forall i :: 0 <= i < |es| ==> !Settles(es[i], n)
    ensures r.Some? ==> exists i :: 0 <= i < |es| && Settles(es[i], n) && es[i].ty == r.value
                                    && forall j :: 0 <= j < i ==> !Settles(es[j], n)
    ensures r != Some(VOID)
  {
    if es == [] then None
    else if Settles(es[0], n) then Some(es[0].ty)
    else
      assert forall i :: 1 <= i < |es| ==> es[1..][i - 1] == es[i];
      FirstTyped(es[1..], n)
  }

  /** Searching a concatenation: the first part is searched first, and the
   *  second only when the first has no settling entry. */
  lemma {:induction false} FirstTypedAppend(a: seq<VarEntry>, b: seq<VarEntry>, n: IRNode)
    ensures FirstTyped(a + b, n) == if FirstTyped(a, n).Some? then FirstTyped(a, n) else FirstTyped(b, n)
  {
    if a != [] {
      assert (a + b)[1..] == a[1..] + b;
      FirstTypedAppend(a[1..], b, n);
    } else {
      assert a + b == b;
    }
  }

  /** The type of the first parameter mentioning the node, over the
   *  parameters of the records named scope, in order. */
  function ParamType(fs: seq<FuncRecord>, scope: string, n: IRNode): (r: Option<LittleType>)
    ensures r.Some? ==> exists i, j :: 0 <= i < |fs| && fs[i].name == scope && 0 <= j < |fs[i].params|
                                      && Mentions(fs[i].params[j], n) && fs[i].params[j].ty == r.value
                                      && (forall j2 :: 0 <= j2 < j ==> !Mentions(fs[i].params[j2], n))
                                      && (forall i2, j2 :: 0 <= i2 < i && fs[i2].name == scope && 0 <= j2 < |fs[i2].params|
                                            ==> !Mentions(fs[i2].params[j2], n))
    ensures r.None? ==> forall i, j :: 0 <= i < |fs| && fs[i].name == scope && 0 <= j < |fs[i].params|
                                      ==> !Mentions(fs[i].params[j], n)
  {
    if fs == [] then None
    else
      var here := if fs[0].name == scope then FirstMention(fs[0].params, n) else None;
      if here.Some? then here
      else
        assert forall i :: 1 <= i < |fs| ==> fs[1..][i - 1] == fs[i];
        ParamType(fs[1..], scope, n)
  }

  /** The type of the first entry of es mentioning the node, whatever it is. */
  function FirstMention(es: seq<VarEntry>, n: IRNode): (r: Option<LittleType>)
    ensures r.Some? ==> exists j :: 0 <= j < |es| && Mentions(es[j], n) && es[j].ty == r.value
                                    && forall k :: 0 <= k < j ==> !Mentions(es[k], n)
    ensures r.None? ==> forall j :: 0 <= j < |es| ==> !Mentions(es[j], n)
  {
    if es == [] then None
    else if Mentions(es[0], n) then Some(es[0].ty)
    else
      assert forall j :: 1 <= j < |es| ==> es[1..][j - 1] == es[j];
      FirstMention(es[1..], n)
  }

  /** getType: the entries of the scope at depth, then the globals; failing
   *  those, the parameters of the functions named scope; failing those, INT. */
  function TypeOf(t: SymbolTable, depth: nat, fs: seq<FuncRecord>, scope: string, n: IRNode): LittleType
  {
    match FirstTyped(Lookup(t, depth) + Lookup(t, 0), n)
    case Some(ty) => ty
    case None =>
      match ParamType(fs, scope, n)
      case Some(ty) => ty
      case None => INT
  }

  /** What getType answers, step by step: the first entry of the scope at
   *  depth that names the operand, else the first global that does, else
   *  the first parameter of the function named scope that does, else INT. */
  lemma TypeOfSteps(t: SymbolTable, depth: nat, fs: seq<FuncRecord>, scope: string, n: IRNode)
    ensures FirstTyped(Lookup(t, depth), n).Some? ==> TypeOf(t, depth, fs, scope, n) == FirstTyped(Lookup(t, depth), n).value
    ensures FirstTyped(Lookup(t, depth), n).None? && FirstTyped(Lookup(t, 0), n).Some? ==>
              TypeOf(t, depth, fs, scope, n) == FirstTyped(Lookup(t, 0), n).value
    ensures ((forall i :: 0 <= i < |Lookup(t, depth)| ==> !Mentions(Lookup(t, depth)[i], n)) &&
             (forall i :: 0 <= i < |Lookup(t, 0)| ==> !Mentions(Lookup(t, 0)[i], n)) &&
             (forall i, j :: (0 <= i < |fs| && fs[i].name == scope && 0 <= j < |fs[i].params|) ==>
                !Mentions(fs[i].params[j], n)))
            ==> TypeOf(t, depth, fs, scope, n) == INT
    ensures FirstTyped(Lookup(t, depth), n).None? && FirstTyped(Lookup(t, 0), n).None? && ParamType(fs, scope, n).Some? ==>
              TypeOf(t, depth, fs, scope, n) == ParamType(fs, scope, n).value
    ensures FirstTyped(Lookup(t, depth), n).None? && FirstTyped(Lookup(t, 0), n).None? && ParamType(fs, scope, n).None? ==>
              TypeOf(t, depth, fs, scope, n) == INT
  {
    FirstTypedAppend(Lookup(t, depth), Lookup(t, 0), n);
  }

  /** Position (from 1) of the first scope named name, or -1 when none is. */
  function ScopeIndex(sv: seq<string>, name: string): (k: int)
    ensures k == -1 <==> name !in sv
    ensures k != -1 ==> 1 <= k <= |sv| && sv[k - 1] == name && name !in sv[..k - 1]
  {
    if sv == [] then -1
    else if sv[0] == name then 1
    else
      var k := ScopeIndex(sv[1..], name);
      assert sv == [sv[0]] + sv[1..];
      if k == -1 then -1
      else
        assert sv[..k] == [sv[0]] + sv[1..][..k - 1];
        k + 1
  }

  /** How many entries of es are temporaries. */
  function CountTemps(es: seq<VarEntry>): (c: nat)
    ensures c <= |es|
  {
    if es == [] then 0 else (if IsTemp(es[0].identifier) then 1 else 0) + CountTemps(es[1..])
  }

  lemma {:induction false} CountTempsAppend(a: seq<VarEntry>, b: seq<VarEntry>)
    ensures CountTemps(a + b) == CountTemps(a) + CountTemps(b)
  {
    if a != [] {
      assert (a + b)[1..] == a[1..] + b;
      CountTempsAppend(a[1..], b);
    } else {
      assert a + b == b;
    }
  }

  /** getNumLocalsAndTemps: the size of the first scope named name (0 when
   *  there is none). */
  function NumLocalsAndTemps(t: SymbolTable, sv: seq<string>, name: string): nat {
    |Lookup(t, ScopeIndex(sv, name))|
  }

  /** getNumLocals: the entries of the first scope named name that are not
   *  temporaries. */
  function NumLocals(t: SymbolTable, sv: seq<string>, name: string): (n: nat)
    ensures n == |NonTempPositions(Lookup(t, ScopeIndex(sv, name)))|
    ensures n + CountTemps(Lookup(t, ScopeIndex(sv, name))) == NumLocalsAndTemps(t, sv, name)
  {
    var es := Lookup(t, ScopeIndex(sv, name));
    NonTempCount(es);
    |es| - CountTemps(es)
  }

  /** The positions of es that hold an entry other than a temporary. */
  function NonTempPositions(es: seq<VarEntry>): set<int> {
    set i | 0 <= i < |es| && !IsTemp(es[i].identifier)
  }

  /** Counting the temporaries leaves exactly the other entries. */
  lemma {:induction false} NonTempCount(es: seq<VarEntry>)
    ensures |NonTempPositions(es)| == |es| - CountTemps(es)
    decreases |es|
  {
    if es != [] {
      var es', e := es[..|es| - 1], es[|es| - 1];
      assert es == es' + [e];
      NonTempCount(es');
      CountTempsAppend(es', [e]);
      assert CountTemps([e]) == if IsTemp(e.identifier) then 1 else 0;
      NonTempStep(es', e);
    }
  }

  /** Appending an entry adds its position when it is not a temporary. */
  lemma NonTempStep(es: seq<VarEntry>, e: VarEntry)
    ensures |NonTempPositions(es + [e])| == |NonTempPositions(es)| + if IsTemp(e.identifier) then 0 else 1
  {
    var a, b := NonTempPositions(es), NonTempPositions(es + [e]);
    assert forall i :: 0 <= i < |es| ==> (es + [e])[i] == es[i];
    assert (es + [e])[|es|] == e;
    assert |es| !in a;
    if IsTemp(e.identifier) {
      assert b == a;
    } else {
      assert b == a + {|es|};
    }
  }

  /** With locals first, getNumLocals is the position of the first
   *  temporary: the entries before it are the locals, those from it on the
   *  temporaries. */
  lemma NumLocalsSplits(t: SymbolTable, sv: seq<string>, name: string)
    requires LocalsFirst(Lookup(t, ScopeIndex(sv, name)))
    ensures var es, n := Lookup(t, ScopeIndex(sv, name)), NumLocals(t, sv, name);
            n <= |es| &&
            (forall i :: 0 <= i < n ==> !IsTemp(es[i].identifier)) &&
            (forall i :: n <= i < |es| ==> IsTemp(es[i].identifier))
  {
    var es, n := Lookup(t, ScopeIndex(sv, name)), NumLocals(t, sv, name);
    var k := FirstTempAt(es, 0);
    CountTempsSplit(es, k);
    CountTempsSuffix(es, k);
    CountTempsNone(es[..k]);
  }

  /** The position of the first temporary at or after i, or |es|. */
  function FirstTempAt(es: seq<VarEntry>, i: nat): (k: nat)
    requires i <= |es|
    requires LocalsFirst(es)
    ensures i <= k <= |es|
    ensures forall j :: i <= j < k ==> !IsTemp(es[j].identifier)
    ensures forall j :: k <= j < |es| ==> IsTemp(es[j].identifier)
    decreases |es| - i
  {
    if i == |es| || IsTemp(es[i].identifier) then i else FirstTempAt(es, i + 1)
  }

  lemma {:induction false} CountTempsNone(es: seq<VarEntry>)
    requires forall j :: 0 <= j < |es| ==> !IsTemp(es[j].identifier)
    ensures CountTemps(es) == 0
    decreases |es|
  {
    if es != [] {
      CountTempsNone(es[1..]);
    }
  }

  /** isGlobalVariable: s is declared in the global scope. */
  predicate IsGlobalVariable(t: SymbolTable, s: string) {
    Declares(Lookup(t, 0), s)
  }

  /** The temporaries of es, in order, get "$-next", "$-(next+1)", ...;
   *  everything else is untouched (the slot each one gets is stated by
   *  RenumberFromSlot). */
  function RenumberFrom(es: seq<VarEntry>, next: nat): (r: seq<VarEntry>)
    ensures |r| == |es|
  {
    if es == [] then []
    else
      var head := if IsTemp(es[0].identifier) then es[0].(altName := LocalSlot(next)) else es[0];
      var next' := if IsTemp(es[0].identifier) then next + 1 else next;
      [head] + RenumberFrom(es[1..], next')
  }

  /** Renumbering changes storage names only, and only those of temporaries. */
  lemma {:induction false} RenumberFromKeeps(es: seq<VarEntry>, next: nat)
    ensures var r := RenumberFrom(es, next);
            forall i :: 0 <= i < |es| ==>
              r[i].identifier == es[i].identifier && r[i].ty == es[i].ty && r[i].value == es[i].value
    ensures var r := RenumberFrom(es, next);
            forall i :: 0 <= i < |es| && !IsTemp(es[i].identifier) ==> r[i] == es[i]
  {
    if es != [] {
      var next' := if IsTemp(es[0].identifier) then next + 1 else next;
      RenumberFromKeeps(es[1..], next');
      var r := RenumberFrom(es, next);
      assert forall i :: 1 <= i < |es| ==> r[i] == RenumberFrom(es[1..], next')[i - 1];
    }
  }

  /** The i-th entry, when a temporary, gets the slot next + (temporaries before it). */
  lemma {:induction false} RenumberFromSlot(es: seq<VarEntry>, next: nat, i: nat)
    requires i < |es| && IsTemp(es[i].identifier)
    ensures RenumberFrom(es, next)[i].altName == LocalSlot(next + CountTemps(es[..i]))
  {
    if i > 0 {
      var next' := if IsTemp(es[0].identifier) then next + 1 else next;
      RenumberFromSlot(es[1..], next', i - 1);
      assert es[..i][1..] == es[1..][..i - 1];
      assert RenumberFrom(es, next)[i] == RenumberFrom(es[1..], next')[i - 1];
    } else {
      assert es[..0] == [];
    }
  }

  /** Renumbering a function scope: its temporaries follow its locals. */
  function Renumbered(es: seq<VarEntry>): seq<VarEntry> {
    RenumberFrom(es, |es| - CountTemps(es) + 1)
  }

  /** modifyTempVarAltNames for the function named fname: the temporaries of
   *  its scope are moved to the local slots after the function's locals;
   *  when fname names no scope, the global scope's temporaries are
   *  renumbered from "$-1". */
  function RenumberTemps(t: SymbolTable, sv: seq<string>, fname: string): (t': SymbolTable)
    ensures t'.Keys == t.Keys
    ensures forall k :: k in t && k != (if fname in sv then ScopeIndex(sv, fname) else 0) ==> t'[k] == t[k]
    ensures fname in sv && ScopeIndex(sv, fname) in t ==>
              t'[ScopeIndex(sv, fname)] == Renumbered(t[ScopeIndex(sv, fname)])
  {
    var k := if fname in sv then ScopeIndex(sv, fname) else 0;
    if k in t then t[k := RenumberFrom(t[k], NumLocals(t, sv, fname) + 1)] else t
  }

  /** Renumbering keeps every local at its slot and every global unnamed. */
  lemma RenumberKeepsNamed(t: SymbolTable, sv: seq<string>, fname: string, k: int)
    requires k in t
    ensures LocalsNamed(t[k]) ==> LocalsNamed(RenumberTemps(t, sv, fname)[k])
    ensures GlobalsUnnamed(t[k]) ==> GlobalsUnnamed(RenumberTemps(t, sv, fname)[k])
  {
    RenumberFromKeeps(t[k], NumLocals(t, sv, fname) + 1);
  }

  /** Renumbering changes only storage names, and only those of temporaries:
   *  every scope keeps its entries, their identifiers and types. */
  lemma RenumberTempsFrame(t: SymbolTable, sv: seq<string>, fname: string)
    ensures var t' := RenumberTemps(t, sv, fname);
            t'.Keys == t.Keys &&
            (forall k :: k in t ==> |t'[k]| == |t[k]|) &&
            (forall k, i :: k in t && 0 <= i < |t[k]| ==>
               t'[k][i].identifier == t[k][i].identifier && t'[k][i].ty == t[k][i].ty &&
               (!IsTemp(t[k][i].identifier) ==> t'[k][i] == t[k][i]))
  {
    forall k | k in t {
      RenumberFromKeeps(t[k], NumLocals(t, sv, fname) + 1);
    }
  }

  /** Locals come before temporaries in es. */
  ghost predicate LocalsFirst(es: seq<VarEntry>) {
    forall i, j :: 0 <= i < j < |es| && IsTemp(es[i].identifier) ==> IsTemp(es[j].identifier)
  }

  lemma {:induction false} CountTempsSuffix(es: seq<VarEntry>, i: nat)
    requires i <= |es|
    requires forall j :: i <= j < |es| ==> IsTemp(es[j].identifier)
    ensures CountTemps(es[i..]) == |es| - i
    decreases |es| - i
  {
    if i < |es| {
      assert es[i..][1..] == es[i + 1..];
      CountTempsSuffix(es, i + 1);
    }
  }

  lemma CountTempsSplit(es: seq<VarEntry>, i: nat)
    requires i <= |es|
    ensures CountTemps(es) == CountTemps(es[..i]) + CountTemps(es[i..])
  {
    assert es == es[..i] + es[i..];
    CountTempsAppend(es[..i], es[i..]);
  }

  /** With locals first, the temporaries before the temporary at i are all
   *  the entries before i except the locals. */
  lemma TempsBeforeTemp(es: seq<VarEntry>, i: nat)
    requires LocalsFirst(es) && i < |es| && IsTemp(es[i].identifier)
    ensures CountTemps(es[..i]) == i - (|es| - CountTemps(es))
  {
    CountTempsSplit(es, i);
    CountTempsSuffix(es, i);
  }

  /** When a scope lists its locals before its temporaries, renumbering puts
   *  every entry, temporary or not, at "$-(i+1)": locals and temporaries get
   *  pairwise different slots. */
  lemma RenumberedSlotsContiguous(es: seq<VarEntry>)
    requires LocalsFirst(es) && LocalsNamed(es)
    ensures forall i :: 0 <= i < |es| ==> Renumbered(es)[i].altName == LocalSlot(i + 1)
    ensures forall i, j :: 0 <= i < j < |es| ==> Renumbered(es)[i].altName != Renumbered(es)[j].altName
  {
    var r := Renumbered(es);
    RenumberFromKeeps(es, |es| - CountTemps(es) + 1);
    forall i | 0 <= i < |es| && IsTemp(es[i].identifier)
      ensures r[i].altName == LocalSlot(i + 1)
    {
      RenumberFromSlot(es, |es| - CountTemps(es) + 1, i);
      TempsBeforeTemp(es, i);
    }
    forall i, j | 0 <= i < j < |es|
      ensures r[i].altName != r[j].altName
    {
      PrefixedInjective("$-", i + 1, j + 1);
    }
  }

  /** A temporary declared before the one local of a two-entry scope gets
   *  renumbered into the local's slot "$-2". */
  lemma TempBeforeLocalCollides(es: seq<VarEntry>)
    requires |es| == 2 && IsTemp(es[0].identifier) && !IsTemp(es[1].identifier)
    requires es[1].altName == LocalSlot(2)
    ensures LocalsNamed(es) && !LocalsFirst(es)
    ensures Renumbered(es)[0].altName == Renumbered(es)[1].altName
  {
    assert CountTemps(es) == 1 by {
      assert es[1..][1..] == [];
    }
    RenumberFromKeeps(es, 2);
    RenumberFromSlot(es, 2, 0);
    assert es[..0] == [];
    assert !LocalsFirst(es) by {
      assert 0 <= 0 < 1 < |es| && IsTemp(es[0].identifier) && !IsTemp(es[1].identifier);
    }
    forall i | 0 <= i < |es| && !IsTemp(es[i].identifier)
      ensures es[i].altName == LocalSlot(i + 1)
    {
      assert i == 1;
    }
  }

  /** The names of the collision below: the first is a temporary, the
   *  second is not, and "$-2" is the second local slot. */
  lemma CollisionNames()
    ensures IsTemp("lpTmpVar0") && !IsTemp("x") && LocalSlot(2) == "$-2"
  {
    assert "lpTmpVar0" == TempName(0);
    if IsTemp("x") {
      ContainsLength("x", TempVarPrefix);
    }
    assert NatToString(2) == "2";
  }

  /** When a temporary was declared before a local, renumbering can put the
   *  temporary in the local's slot: here lpTmpVar0 and x both end at "$-2". */
  lemma RenumberCollidesWhenTempsFirst()
    ensures var es := [VarEntry(INT, "lpTmpVar0", "", "r0"), VarEntry(INT, "x", "", "$-2")];
            LocalsNamed(es) && !LocalsFirst(es) &&
            Renumbered(es)[0].altName == Renumbered(es)[1].altName
  {
    var t, x := VarEntry(INT, "lpTmpVar0", "", "r0"), VarEntry(INT, "x", "", "$-2");
    CollisionNames();
    TempBeforeLocalCollides([t, x]);
  }
}
