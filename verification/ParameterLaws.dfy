/** What the reader asks of single parameters and what it reads from them, stated on the values. */
module ParameterLaws {
  import opened Octets
  import opened EvalParams
  import opened Components

  /******* Declarations *******/

  /** Which scalar integers can be declared: the interval of the bounds is written out. */
  lemma ScalarIntAcceptedIff(p: IntParams)
    requires !p.isList
    ensures IntAccepted(p) <==>
            && p.name != "input" && p.name != "output"
            && (p.isOptional ==> p.default.Some?)
            && (p.allowed.Some? ==> p.lower.None? && p.upper.None?)
            && (p.lower.Some? && p.upper.Some? ==> p.lower.value <= p.upper.value)
            && (p.default.Some? ==>
                  && p.default.value.OneInt?
                  && var v := p.default.value.i;
                     && MIN_I64 <= v <= MAX_I64
                     && (p.allowed.Some? ==> v in p.allowed.value)
                     && (p.lower.Some? ==> v >= p.lower.value + (if p.lowerInclusive then 0 else 1))
                     && (p.upper.Some? ==> v <= p.upper.value - (if p.upperInclusive then 0 else 1)))
            && (p.listMin.Some? && p.listMax.Some? ==> p.listMin.value <= p.listMax.value)
            && (p.allowed.Some? ==> forall i :: 0 <= i < |p.allowed.value| ==> MIN_I64 <= p.allowed.value[i] <= MAX_I64)
            && (p.lower.Some? ==> MIN_I64 <= p.lower.value <= MAX_I64)
            && (p.upper.Some? ==> MIN_I64 <= p.upper.value <= MAX_I64)
  {
    if p.default.Some? && p.default.value.OneInt? {
      var values := DefaultInts(p.default.value);
      assert values == [p.default.value.i] && values[0] == p.default.value.i;
    }
  }

  /** Which scalar strings can be declared. */
  lemma ScalarStrAcceptedIff(p: StrParams)
    requires !p.isList
    ensures StrAccepted(p) <==>
            && p.name != "input" && p.name != "output"
            && (p.isOptional ==> p.default.Some?)
            && (p.default.Some? ==>
                  p.default.value.OneStr? && (p.allowed.Some? ==> p.default.value.s in p.allowed.value))
            && (p.listMin.Some? && p.listMax.Some? ==> p.listMin.value <= p.listMax.value)
  {
    if p.default.Some? && p.default.value.OneStr? {
      var values := DefaultStrs(p.default.value, false);
      assert values == [p.default.value.s] && values[0] == p.default.value.s;
    }
  }

  /** Which lists of strings can be declared, and what a default that is one string stands for. */
  lemma ListStrAcceptedIff(p: StrParams, values: seq<string>)
    requires p.isList && p.default.Some?
    requires match p.default.value
             case ManyStrs(ss) => values == ss
             case OneStr(s) => |values| == |s| && forall i :: 0 <= i < |s| ==> values[i] == [s[i]]
    ensures StrAccepted(p) <==>
            && p.name != "input" && p.name != "output"
            && (p.allowed.Some? ==> forall i :: 0 <= i < |values| ==> values[i] in p.allowed.value)
            && (p.listMin.Some? && p.listMax.Some? ==> p.listMin.value <= p.listMax.value)
            && (p.listMin.Some? ==> MIN_I64 <= p.listMin.value <= MAX_I64)
            && (p.listMax.Some? ==> MIN_I64 <= p.listMax.value <= MAX_I64)
    ensures StrAccepted(p) ==> StrDef(p).default.ss == values
  {
    assert DefaultStrs(p.default.value, true) == values;
  }

  /** Which lists of integers can be declared. */
  lemma ListIntAcceptedIff(p: IntParams, values: seq<int>)
    requires p.isList && p.default == Some(ManyInts(values))
    ensures IntAccepted(p) <==>
            && p.name != "input" && p.name != "output"
            && (p.allowed.Some? ==> p.lower.None? && p.upper.None?)
            && (p.lower.Some? && p.upper.Some? ==> p.lower.value <= p.upper.value)
            && (forall i :: 0 <= i < |values| ==>
                  && MIN_I64 <= values[i] <= MAX_I64
                  && (p.allowed.Some? ==> values[i] in p.allowed.value)
                  && (p.lower.Some? ==> values[i] >= p.lower.value + (if p.lowerInclusive then 0 else 1))
                  && (p.upper.Some? ==> values[i] <= p.upper.value - (if p.upperInclusive then 0 else 1)))
            && (p.listMin.Some? && p.listMax.Some? ==> p.listMin.value <= p.listMax.value)
            && (p.listMin.Some? ==> MIN_I64 <= p.listMin.value <= MAX_I64)
            && (p.listMax.Some? ==> MIN_I64 <= p.listMax.value <= MAX_I64)
            && (p.allowed.Some? ==> forall i :: 0 <= i < |p.allowed.value| ==> MIN_I64 <= p.allowed.value[i] <= MAX_I64)
            && (p.lower.Some? ==> MIN_I64 <= p.lower.value <= MAX_I64)
            && (p.upper.Some? ==> MIN_I64 <= p.upper.value <= MAX_I64)
  {
    assert DefaultInts(p.default.value) == values;
  }

  /** Which booleans can be declared. */
  lemma BoolAcceptedIff(p: BoolParams)
    ensures BoolAccepted(p) <==>
            && p.name != "input" && p.name != "output"
            && (p.isOptional ==> p.default.Some?)
            && (p.default.Some? ==> if p.isList then p.default.value.ManyBools? else p.default.value.OneBool?)
            && (p.listMin.Some? && p.listMax.Some? ==> p.listMin.value <= p.listMax.value)
            && (p.isList && p.listMin.Some? ==> MIN_I64 <= p.listMin.value <= MAX_I64)
            && (p.isList && p.listMax.Some? ==> MIN_I64 <= p.listMax.value <= MAX_I64)
  {}

  /** The lengths of a list are stored as declared, from zero and without end when they are not. */
  lemma ListLengthsStored(i: IntParams, s: StrParams, b: BoolParams)
    requires IntAccepted(i) && StrAccepted(s) && BoolAccepted(b) && i.isList && s.isList && b.isList
    ensures IntDef(i).listMin == (if i.listMin.Some? then i.listMin.value else 0)
    ensures IntDef(i).listMax == (if i.listMax.Some? then i.listMax.value else -1)
    ensures StrDef(s).listMin == (if s.listMin.Some? then s.listMin.value else 0)
    ensures StrDef(s).listMax == (if s.listMax.Some? then s.listMax.value else -1)
    ensures BoolDef(b).listMin == (if b.listMin.Some? then b.listMin.value else 0)
    ensures BoolDef(b).listMax == (if b.listMax.Some? then b.listMax.value else -1)
  {}

  /** An input or output is taken exactly under an unreserved name and with types the components know. */
  lemma IoAcceptedIff(io: IoDef)
    ensures IoAccepted(io) <==>
            && io.name != "input" && io.name != "output"
            && forall i :: 0 <= i < |io.types| ==>
                 || io.types[i] == "sf.table.vertical_table" || io.types[i] == "sf.table.individual"
                 || io.types[i] == "sf.model.ss_sgd" || io.types[i] == "sf.model.sgb"
                 || io.types[i] == "sf.rule.woe_binning" || io.types[i] == "sf.model.ss_xgb"
                 || io.types[i] == "sf.report"
  {}

  function AttrOf(op: Op): seq<AttrDef> { if op.DeclareAttr? then [op.d] else [] }

  function InputOf(op: Op): seq<IoDef> { if op.DeclareInput? then [op.io] else [] }

  function OutputOf(op: Op): seq<IoDef> { if op.DeclareOutput? then [op.io] else [] }

  /** What a sequence of declarations declares. */
  function Attrs(ops: seq<Op>): seq<AttrDef> { if ops == [] then [] else AttrOf(ops[0]) + Attrs(ops[1..]) }

  function Inputs(ops: seq<Op>): seq<IoDef> { if ops == [] then [] else InputOf(ops[0]) + Inputs(ops[1..]) }

  function Outputs(ops: seq<Op>): seq<IoDef> { if ops == [] then [] else OutputOf(ops[0]) + Outputs(ops[1..]) }

  lemma StepDeclares(s: CompState, op: Op, domain: string, name: string, version: string)
    requires s.definition.None? && !op.CallDefinition?
    ensures var t := StepOp(s, op, domain, name, version);
            && t.definition.None? && t.attrs == s.attrs + AttrOf(op)
            && t.inputs == s.inputs + InputOf(op) && t.outputs == s.outputs + OutputOf(op)
  {}

  lemma {:induction false} DeclaredSoFar(s: CompState, ops: seq<Op>, domain: string, name: string, version: string)
    requires s.definition.None? && forall i :: 0 <= i < |ops| ==> !ops[i].CallDefinition?
    ensures var t := RunOps(s, ops, domain, name, version);
            && t.definition.None? && t.attrs == s.attrs + Attrs(ops)
            && t.inputs == s.inputs + Inputs(ops) && t.outputs == s.outputs + Outputs(ops)
    decreases |ops|
  {
    if ops != [] {
      var op, rest := ops[0], ops[1..];
      StepDeclares(s, op, domain, name, version);
      DeclaredSoFar(StepOp(s, op, domain, name, version), rest, domain, name, version);
      ConcatAssoc(s.attrs, AttrOf(op), Attrs(rest));
      ConcatAssoc(s.inputs, InputOf(op), Inputs(rest));
      ConcatAssoc(s.outputs, OutputOf(op), Outputs(rest));
    }
  }

  /** The definition carries the component's own names and everything declared before it, in order. */
  lemma DefinitionHolds(ops: seq<Op>, domain: string, name: string, version: string)
    requires forall i :: 0 <= i < |ops| ==> !ops[i].CallDefinition?
    ensures var r := RunOps(NEW_COMPONENT, ops + [CallDefinition], domain, name, version).definition;
            r.Some? ==>
              && r.value.domain == domain && r.value.name == name && r.value.version == version
              && r.value.attrs == Attrs(ops) && r.value.inputs == Inputs(ops) && r.value.outputs == Outputs(ops)
  {
    var s := RunOps(NEW_COMPONENT, ops, domain, name, version);
    DeclaredSoFar(NEW_COMPONENT, ops, domain, name, version);
    RunOpsConcat(NEW_COMPONENT, ops, [CallDefinition], domain, name, version);
    assert [CallDefinition][1..] == [];
    assert RunOps(s, [CallDefinition], domain, name, version) == Define(s, domain, name, version);
  }

  /** The name of a column is taken under its input's name and "_": an output declared later under that
      name is refused, an attribute, which is declared earlier, is not. */
  lemma ColumnNameTaken(x: string, y: string, d: AttrDef, domain: string, name: string, version: string)
    requires d.name == x + "_" + y
    ensures var input := IoDef(x, [], [ColumnDef(y, 0, 0, 0)]);
            && Define(CompState([], [input], [IoDef(d.name, [], [])], {}, None), domain, name, version).definition.None?
            && Define(CompState([d], [input], [], {}, None), domain, name, version).definition.Some?
  {
    var input := IoDef(x, [], [ColumnDef(y, 0, 0, 0)]);
    assert InputEvents([input]) == [Claim(x), Take(d.name)] by { assert [input][..0] == []; }
    var late, early := [Claim(x), Take(d.name), Claim(d.name)], [Claim(d.name), Claim(x), Take(d.name)];
    assert Events(CompState([], [input], [IoDef(d.name, [], [])], {}, None)) == late;
    assert Events(CompState([d], [input], [], {}, None)) == early;
    assert late[2] == Claim(d.name) && late[1].name == late[2].name;
    assert |d.name| > |x|;
    ProcessIff(late, {});
    ProcessIff(early, {});
  }

  /******* Values *******/

  /** A given scalar string is refused exactly when it is not one of the allowed ones. */
  lemma GivenStrAcceptedIff(close: Closeness, given: Given, p: StrParams)
    requires StrAccepted(p) && !p.isList && AttrSlot(StrDef(p)).Name() in given
    ensures var v := given[AttrSlot(StrDef(p)).Name()].s;
            && (SlotOk(close, given, AttrSlot(StrDef(p))) <==>
                  (p.allowed.Some? && p.allowed.value != [] ==> v in p.allowed.value))
            && SlotValue(given, AttrSlot(StrDef(p))) == VS(v)
  {}

  /** With exact comparison a given float is refused exactly when it is not allowed or out of bounds. */
  lemma GivenFloatAcceptedIff(close: Closeness, given: Given, d: AttrDef)
    requires forall x, y :: close(x, y) <==> x == y
    requires d.typ.Float? && AttrSlot(d).Name() in given
    ensures var v := given[AttrSlot(d).Name()].f;
            && (SlotOk(close, given, AttrSlot(d)) <==>
                  && (d.allowed.fs != [] ==> v in d.allowed.fs)
                  && (d.lower.Bound? ==> if d.lower.inclusive then d.lower.value.f <= v else d.lower.value.f < v)
                  && (d.upper.Bound? ==> if d.upper.inclusive then v <= d.upper.value.f else v < d.upper.value.f))
            && SlotValue(given, AttrSlot(d)) == VF(v)
  {
    var v := given[AttrSlot(d).Name()];
    if i :| 0 <= i < |d.allowed.fs| && d.allowed.fs[i] == v.f { assert close(d.allowed.fs[i], v.f); }
    assert AllowedOk(close, v, d) <==> d.allowed.fs == [] || v.f in d.allowed.fs;
  }

  /** Lists, booleans and given integers are read as they are. */
  lemma GivenReads(close: Closeness, given: Given, d: AttrDef)
    requires AttrSlot(d).Name() in given && Supported(d.typ)
    ensures var m, r := given[AttrSlot(d).Name()], SlotValue(given, AttrSlot(d));
            && (d.typ.Int? ==> r == VI(m.i64))
            && (d.typ.Bool? ==> r == VB(m.b) && SlotOk(close, given, AttrSlot(d)))
            && (d.typ.Floats? ==> r == VFs(m.fs) && SlotOk(close, given, AttrSlot(d)))
            && (d.typ.Ints? ==> r == VIs(m.i64s) && SlotOk(close, given, AttrSlot(d)))
            && (d.typ.Strs? ==> r == VSs(m.ss) && SlotOk(close, given, AttrSlot(d)))
            && (d.typ.Bools? ==> r == VBs(m.bs) && SlotOk(close, given, AttrSlot(d)))
  {}

  /** An attribute that is neither given nor optional, or of no type the reader knows, is refused. */
  lemma RefusedAttribute(close: Closeness, given: Given, d: AttrDef)
    requires (AttrSlot(d).Name() !in given && !d.isOptional) || d.typ.Unspecified? || d.typ.Structural?
    ensures !SlotOk(close, given, AttrSlot(d))
  {}

  /** A column has as many names as its counts allow, zero standing for no limit; one that is not given
      has none. Its message stands under "input", the input's name and its own. */
  lemma ColumnAcceptedIff(close: Closeness, given: Given, input: string, col: ColumnDef)
    requires col.extraAttrs == 0
    ensures var path := "input/" + input + "/" + col.name;
            var names := if path in given then given[path].ss else [];
            && (SlotOk(close, given, ColumnSlot(input, col)) <==>
                  && (col.minCount == 0 || col.minCount <= |names|)
                  && (col.maxCount == 0 || |names| <= col.maxCount))
            && SlotValue(given, ColumnSlot(input, col)) == VSs(names)
  {
    ColumnPath(input, col);
  }

  lemma ColumnPath(input: string, col: ColumnDef)
    ensures ColumnSlot(input, col).Name() == "input/" + input + "/" + col.name
  {
    assert ["input", input][1..] == [input] && [input][1..] == [];
    assert Join([input], col.name) == input + "/" + col.name;
    assert "input" + "/" + (input + "/" + col.name) == "input/" + input + "/" + col.name;
  }

  /** The prefixes of an attribute come before its name, each followed by a slash. */
  lemma {:induction false} PrefixedPath(prefixes: seq<string>, last: string, name: string)
    ensures Join([], name) == name
    ensures Join(prefixes + [last], name) == Join(prefixes, last) + "/" + name
  {
    if prefixes == [] {
      assert ([] + [last])[1..] == [];
    } else {
      assert (prefixes + [last])[1..] == prefixes[1..] + [last];
      PrefixedPath(prefixes[1..], last, name);
      var head, mid := prefixes[0] + "/", Join(prefixes[1..], last);
      assert head + (mid + "/" + name) == (head + mid) + "/" + name;
    }
  }
}
