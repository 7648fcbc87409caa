/** When a definition that `definition()` returned can be read at all: whether some node satisfies
    the reader. The two sides join names differently, so a returned definition need not be readable. */
module ReadableDefinitions {
  import opened Octets
  import opened EvalParams
  import opened EvalParamReader
  import opened Components

  ghost predicate Readable(close: Closeness, def: ComponentDef) {
    exists node :: Acceptable(close, node, def)
  }

  ghost predicate Satisfiable(close: Closeness, slot: Slot) {
    exists given :: SlotOk(close, given, slot)
  }

  /******* Any definition *******/

  /** A message that satisfies the slot. */
  ghost function Witness(close: Closeness, slot: Slot): (v: Attribute)
    requires Satisfiable(close, slot)
    ensures !v.isNa && forall given: Given ::
              slot.Name() in given && given[slot.Name()] == v ==> SlotOk(close, given, slot)
  {
    var given :| SlotOk(close, given, slot);
    Source(given, slot).(isNa := false)
  }

  ghost function InputFor(io: IoDef): DistData { DistData(if io.types == [] then "" else io.types[0], "") }

  ghost predicate AllSatisfiable(close: Closeness, slots: seq<Slot>) {
    forall i :: 0 <= i < |slots| ==> Satisfiable(close, slots[i])
  }

  /** The node that sets every slot. */
  ghost function FullNode(close: Closeness, def: ComponentDef): NodeParam
    requires AllSatisfiable(close, Slots(def))
  {
    var slots := Slots(def);
    NodeParam(def.domain, def.name, def.version,
              seq(|slots|, i requires 0 <= i < |slots| => slots[i].Name()),
              seq(|slots|, i requires 0 <= i < |slots| => Witness(close, slots[i])),
              seq(|def.inputs|, i requires 0 <= i < |def.inputs| => InputFor(def.inputs[i])),
              seq(|def.outputs|, _ => ""))
  }

  lemma FullNodeAccepted(close: Closeness, def: ComponentDef)
    requires DistinctNames(Slots(def)) && AllSatisfiable(close, Slots(def))
    requires DistinctIo(def.inputs, |def.inputs|) && DistinctIo(def.outputs, |def.outputs|)
    ensures Acceptable(close, FullNode(close, def), def)
  {
    var node, slots := FullNode(close, def), Slots(def);
    var n := PairCount(node);
    assert NoRepeatedPath(node, n);
    forall i | 0 <= i < |slots| ensures SlotOk(close, GivenOf(node, n), slots[i]) {
      GivenIff(node, n, slots[i].Name());
      assert node.attrPaths[i] == slots[i].Name() && node.attrs[i] == Witness(close, slots[i]);
    }
  }

  /** Some node can be read exactly when no two slots share a name, every slot has a value that
      passes its checks, and neither inputs nor outputs repeat a name. */
  lemma ReadableIff(close: Closeness, def: ComponentDef)
    ensures Readable(close, def) <==>
            && DistinctNames(Slots(def)) && AllSatisfiable(close, Slots(def))
            && DistinctIo(def.inputs, |def.inputs|) && DistinctIo(def.outputs, |def.outputs|)
  {
    if node :| Acceptable(close, node, def) {
      var given, slots := GivenOf(node, PairCount(node)), Slots(def);
      forall i | 0 <= i < |slots| ensures Satisfiable(close, slots[i]) { assert SlotOk(close, given, slots[i]); }
    }
    if && DistinctNames(Slots(def)) && AllSatisfiable(close, Slots(def))
       && DistinctIo(def.inputs, |def.inputs|) && DistinctIo(def.outputs, |def.outputs|)
    {
      FullNodeAccepted(close, def);
    }
  }

  /******* Definitions that were declared *******/

  /** What the declaring methods can append. */
  ghost predicate Declared(d: AttrDef) {
    || (exists p: IntParams :: IntAccepted(p) && d == IntDef(p))
    || (exists p: StrParams :: StrAccepted(p) && d == StrDef(p))
    || (exists p: BoolParams :: BoolAccepted(p) && d == BoolDef(p))
  }

  /** The least and the greatest value the bounds of an integer leave. */
  function Low(d: AttrDef): int {
    if d.lower.Bound? then d.lower.value.i64 + (if d.lower.inclusive then 0 else 1) else MIN_I64
  }

  function High(d: AttrDef): int {
    if d.upper.Bound? then d.upper.value.i64 - (if d.upper.inclusive then 0 else 1) else MAX_I64
  }

  /** A required integer has a value between its bounds. */
  predicate RoomBetween(d: AttrDef) {
    d.typ.Int? && !d.isOptional ==> Low(d) <= High(d)
  }

  predicate CountsOk(col: ColumnDef) {
    col.maxCount != 0 ==> 0 <= col.maxCount && col.minCount <= col.maxCount
  }

  lemma IntSatisfiableIff(close: Closeness, p: IntParams)
    requires IntAccepted(p)
    ensures Satisfiable(close, AttrSlot(IntDef(p))) <==> RoomBetween(IntDef(p))
  {
    var slot := AttrSlot(IntDef(p));
    if p.isOptional {
      OmittedIntReadsDefault(close, map[], p);
    } else if p.isList {
      assert SlotOk(close, map[slot.Name() := EMPTY_ATTRIBUTE], slot);
    } else {
      var v := if p.allowed.Some? && p.allowed.value != [] then p.allowed.value[0]
               else Low(slot.d);
      if v <= MAX_I64 {
        GivenIntAcceptedIff(close, map[slot.Name() := EMPTY_ATTRIBUTE.(i64 := v)], p);
      }
      if other :| SlotOk(close, other, slot) { GivenIntAcceptedIff(close, other, p); }
    }
  }

  lemma StrSatisfiable(close: Closeness, p: StrParams)
    requires StrAccepted(p)
    ensures Satisfiable(close, AttrSlot(StrDef(p)))
  {
    var slot := AttrSlot(StrDef(p));
    var v := if p.allowed.Some? && p.allowed.value != [] then p.allowed.value[0] else "";
    assert SlotOk(close, map[slot.Name() := EMPTY_ATTRIBUTE.(s := v)], slot);
  }

  lemma DeclaredSatisfiableIff(close: Closeness, d: AttrDef)
    requires Declared(d)
    ensures Satisfiable(close, AttrSlot(d)) <==> RoomBetween(d)
  {
    if p: IntParams :| IntAccepted(p) && d == IntDef(p) {
      IntSatisfiableIff(close, p);
    } else if p: StrParams :| StrAccepted(p) && d == StrDef(p) {
      StrSatisfiable(close, p);
    } else {
      var slot := AttrSlot(d);
      assert SlotOk(close, map[slot.Name() := EMPTY_ATTRIBUTE], slot);
    }
  }

  lemma ColumnSatisfiableIff(close: Closeness, input: string, col: ColumnDef)
    requires col.extraAttrs == 0
    ensures Satisfiable(close, ColumnSlot(input, col)) <==> CountsOk(col)
  {
    var slot := ColumnSlot(input, col);
    var n := if col.minCount < 0 then 0 else col.minCount;
    assert CountsOk(col) ==> SlotOk(close, map[slot.Name() := EMPTY_ATTRIBUTE.(ss := seq(n, _ => ""))], slot);
  }

  /** The inputs as `io` builds them: columns carry no attributes of their own. */
  ghost predicate PlainColumns(io: IoDef) { forall k :: 0 <= k < |io.columns| ==> io.columns[k].extraAttrs == 0 }

  ghost predicate AllCountsOk(io: IoDef) { forall k :: 0 <= k < |io.columns| ==> CountsOk(io.columns[k]) }

  lemma SatisfiableConcat(close: Closeness, xs: seq<Slot>, ys: seq<Slot>)
    ensures AllSatisfiable(close, xs + ys) <==> AllSatisfiable(close, xs) && AllSatisfiable(close, ys)
  {
    var all := xs + ys;
    if AllSatisfiable(close, all) {
      forall i | 0 <= i < |xs| ensures Satisfiable(close, xs[i]) { assert all[i] == xs[i]; }
      forall i | 0 <= i < |ys| ensures Satisfiable(close, ys[i]) { assert all[|xs| + i] == ys[i]; }
    }
  }

  lemma ColumnsSatisfiableIff(close: Closeness, io: IoDef)
    requires PlainColumns(io)
    ensures AllSatisfiable(close, ColumnSlots(io)) <==> AllCountsOk(io)
  {
    var slots := ColumnSlots(io);
    forall k | 0 <= k < |slots| ensures Satisfiable(close, slots[k]) <==> CountsOk(io.columns[k]) {
      ColumnSatisfiableIff(close, io.name, io.columns[k]);
    }
  }

  lemma {:induction false} InputsSatisfiableIff(close: Closeness, inputs: seq<IoDef>)
    requires forall i :: 0 <= i < |inputs| ==> PlainColumns(inputs[i])
    ensures AllSatisfiable(close, InputSlots(inputs)) <==> forall i :: 0 <= i < |inputs| ==> AllCountsOk(inputs[i])
  {
    if inputs != [] {
      var n := |inputs| - 1;
      InputsSatisfiableIff(close, inputs[..n]);
      ColumnsSatisfiableIff(close, inputs[n]);
      SatisfiableConcat(close, InputSlots(inputs[..n]), ColumnSlots(inputs[n]));
      assert forall i :: 0 <= i < n ==> inputs[..n][i] == inputs[i];
    }
  }

  lemma AttrsSatisfiableIff(close: Closeness, attrs: seq<AttrDef>)
    requires forall i :: 0 <= i < |attrs| ==> Declared(attrs[i])
    ensures AllSatisfiable(close, AttrSlots(attrs)) <==> forall i :: 0 <= i < |attrs| ==> RoomBetween(attrs[i])
  {
    var slots := AttrSlots(attrs);
    forall i | 0 <= i < |slots| ensures Satisfiable(close, slots[i]) <==> RoomBetween(attrs[i]) {
      DeclaredSatisfiableIff(close, attrs[i]);
    }
  }

  ghost predicate AllDeclared(attrs: seq<AttrDef>, inputs: seq<IoDef>) {
    && (forall i :: 0 <= i < |attrs| ==> Declared(attrs[i]))
    && (forall i :: 0 <= i < |inputs| ==> PlainColumns(inputs[i]))
  }

  ghost predicate WellDeclared(op: Op) {
    (op.DeclareAttr? ==> Declared(op.d)) && (op.DeclareInput? ==> PlainColumns(op.io))
  }

  lemma {:induction false} DeclaredRun(s: CompState, ops: seq<Op>, domain: string, name: string, version: string)
    requires AllDeclared(s.attrs, s.inputs)
    requires s.definition.Some? ==> AllDeclared(s.definition.value.attrs, s.definition.value.inputs)
    requires forall i :: 0 <= i < |ops| ==> WellDeclared(ops[i])
    ensures var t := RunOps(s, ops, domain, name, version);
            t.definition.Some? ==> AllDeclared(t.definition.value.attrs, t.definition.value.inputs)
    decreases |ops|
  {
    if ops != [] {
      assert WellDeclared(ops[0]);
      DeclaredRun(StepOp(s, ops[0], domain, name, version), ops[1..], domain, name, version);
    }
  }

  lemma DistinctAllNames(def: ComponentDef)
    requires DistinctSeq(AllNames(def))
    ensures DistinctIo(def.inputs, |def.inputs|) && DistinctIo(def.outputs, |def.outputs|)
  {
    var names, a, b := AllNames(def), |def.attrs|, |def.attrs| + |def.inputs|;
    forall i | 0 <= i < |def.inputs| ensures names[a + i] == def.inputs[i].name {}
    forall i | 0 <= i < |def.outputs| ensures names[b + i] == def.outputs[i].name {}
    forall i, j | 0 <= i < j < |def.inputs| ensures def.inputs[i].name != def.inputs[j].name {
      assert names[a + i] != names[a + j];
    }
    forall i, j | 0 <= i < j < |def.outputs| ensures def.outputs[i].name != def.outputs[j].name {
      assert names[b + i] != names[b + j];
    }
  }

  /** Over every sequence of declarations and calls: a definition that is returned can be read by
      some node exactly when its slot names are distinct, every required integer has room between
      its bounds and the column counts of every input are in order. */
  lemma ReturnedReadableIff(close: Closeness, ops: seq<Op>, domain: string, name: string, version: string)
    requires forall i :: 0 <= i < |ops| ==> WellDeclared(ops[i])
    ensures var r := RunOps(NEW_COMPONENT, ops, domain, name, version).definition;
            r.Some? ==>
              var def := r.value;
              Readable(close, def) <==>
                && DistinctNames(Slots(def))
                && (forall i :: 0 <= i < |def.attrs| ==> RoomBetween(def.attrs[i]))
                && (forall i :: 0 <= i < |def.inputs| ==> AllCountsOk(def.inputs[i]))
  {
    var t := RunOps(NEW_COMPONENT, ops, domain, name, version);
    if t.definition.Some? {
      var def := t.definition.value;
      SoundRun(NEW_COMPONENT, ops, domain, name, version);
      DeclaredRun(NEW_COMPONENT, ops, domain, name, version);
      DistinctAllNames(def);
      AttrsSatisfiableIff(close, def.attrs);
      InputsSatisfiableIff(close, def.inputs);
      SatisfiableConcat(close, AttrSlots(def.attrs), InputSlots(def.inputs));
      ReadableIff(close, def);
    }
  }

  const TWICE: IoDef := IoDef("x", [], [ColumnDef("y", 0, 0, 0), ColumnDef("y", 0, 0, 0)])

  /** An input that declares a column twice: `definition()` returns, and no node can be read. */
  lemma UnreadableDefinition(close: Closeness, domain: string, name: string, version: string)
    ensures var r := RunOps(NEW_COMPONENT, [DeclareInput(TWICE), CallDefinition], domain, name, version).definition;
            r.Some? && !Readable(close, r.value)
  {
    var def := ComponentDef(domain, name, version, [], [TWICE], []);
    TwiceReturned(domain, name, version);
    var slots := Slots(def);
    assert InputSlots([TWICE]) == InputSlots([]) + ColumnSlots(TWICE) by { assert [TWICE][..0] == []; }
    assert slots == ColumnSlots(TWICE);
    assert slots[0].Name() == slots[1].Name();
    ReadableIff(close, def);
  }

  lemma TwiceReturned(domain: string, name: string, version: string)
    ensures RunOps(NEW_COMPONENT, [DeclareInput(TWICE), CallDefinition], domain, name, version).definition ==
            Some(ComponentDef(domain, name, version, [], [TWICE], []))
  {
    var s := StepOp(NEW_COMPONENT, DeclareInput(TWICE), domain, name, version);
    assert [] + [TWICE] == [TWICE];
    var events := [Claim("x"), Take("x" + "_" + "y"), Take("x" + "_" + "y")];
    assert InputEvents([TWICE]) == events by { assert [TWICE][..0] == []; }
    assert Events(s) == events;
    ProcessIff(events, {});
    var t := Define(s, domain, name, version);
    var ops := [DeclareInput(TWICE), CallDefinition];
    assert ops[1..] == [CallDefinition] && [CallDefinition][1..] == [];
    assert RunOps(s, [CallDefinition], domain, name, version) == RunOps(t, [], domain, name, version) == t;
  }

  const SLASHED: BoolParams := BoolParams("input/x/y", false, false, None, None, None)

  const COLUMN: IoDef := IoDef("x", [], [ColumnDef("y", 0, 0, 0)])

  /** An attribute named like the path of a column: `definition()` joins the column's name with "_" and
      sees no clash, the reader joins it with "/" and does. */
  lemma JoinedNamesClash(close: Closeness, domain: string, name: string, version: string)
    ensures BoolAccepted(SLASHED)
    ensures var ops := [DeclareAttr(BoolDef(SLASHED)), DeclareInput(COLUMN), CallDefinition];
            var r := RunOps(NEW_COMPONENT, ops, domain, name, version).definition;
            r.Some? && !Readable(close, r.value)
  {
    ClashReturned(domain, name, version);
    var def := ComponentDef(domain, name, version, [BoolDef(SLASHED)], [COLUMN], []);
    var slots := Slots(def);
    assert InputSlots([COLUMN]) == InputSlots([]) + ColumnSlots(COLUMN) by { assert [COLUMN][..0] == []; }
    assert slots == [AttrSlot(BoolDef(SLASHED)), ColumnSlot("x", COLUMN.columns[0])];
    assert slots[0].Name() == "input/x/y";
    assert Join(["input", "x"], "y") == "input" + "/" + Join(["x"], "y") == "input/x/y";
    assert slots[0].Name() == slots[1].Name();
    ReadableIff(close, def);
  }

  lemma ClashEvents(d: AttrDef, s: CompState)
    requires d.name == "input/x/y" && s.attrs == [d] && s.inputs == [COLUMN] && s.outputs == [] && s.argNames == {}
    ensures Process(Events(s), s.argNames).1
  {
    var events := [Claim("input/x/y"), Claim("x"), Take("x" + "_" + "y")];
    assert InputEvents([COLUMN]) == events[1..] by { assert [COLUMN][..0] == []; }
    assert Events(s) == events;
    assert |"input/x/y"| == 9;
    ProcessIff(events, {});
  }

  lemma ClashReturned(domain: string, name: string, version: string)
    ensures BoolAccepted(SLASHED)
    ensures var ops := [DeclareAttr(BoolDef(SLASHED)), DeclareInput(COLUMN), CallDefinition];
            RunOps(NEW_COMPONENT, ops, domain, name, version).definition ==
            Some(ComponentDef(domain, name, version, [BoolDef(SLASHED)], [COLUMN], []))
  {
    assert |SLASHED.name| == 9;
    var d := BoolDef(SLASHED);
    assert [] + [d] == [d] && [] + [COLUMN] == [COLUMN];
    var s := CompState([d], [COLUMN], [], {}, None);
    ClashEvents(d, s);
    ThreeOps(NEW_COMPONENT, DeclareAttr(d), DeclareInput(COLUMN), domain, name, version);
  }

  lemma ThreeOps(s: CompState, first: Op, second: Op, domain: string, name: string, version: string)
    ensures RunOps(s, [first, second, CallDefinition], domain, name, version) ==
            Define(StepOp(StepOp(s, first, domain, name, version), second, domain, name, version),
                   domain, name, version)
  {
    var s1 := StepOp(s, first, domain, name, version);
    var s2 := StepOp(s1, second, domain, name, version);
    RunOpsConcat(s, [first, second], [CallDefinition], domain, name, version);
    assert [first, second] + [CallDefinition] == [first, second, CallDefinition];
    assert [first, second][1..] == [second] && [second][1..] == [] && [CallDefinition][1..] == [];
    assert RunOps(s1, [second], domain, name, version) == RunOps(s2, [], domain, name, version) == s2;
    assert RunOps(s, [first, second], domain, name, version) == RunOps(s1, [second], domain, name, version);
  }
}
