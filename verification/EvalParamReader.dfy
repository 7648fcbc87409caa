/** The reader object: its constructor loops, proved against the declarative conditions. */
module EvalParamReader {
  import opened Octets
  import opened EvalParams

  function PairCount(node: NodeParam): nat { Min(|node.attrPaths|, |node.attrs|) }

  /** No path that already carries a value appears again. */
  ghost predicate NoRepeatedPath(node: NodeParam, n: nat)
    requires n <= PairCount(node)
  {
    forall i, j :: 0 <= i < j < n && node.attrPaths[i] == node.attrPaths[j] ==> node.attrs[i].isNa
  }

  /** The node's own messages among the first n pairs: those not marked as open. */
  ghost function GivenOf(node: NodeParam, n: nat): Given
    requires n <= PairCount(node)
  {
    if n == 0 then map[]
    else if node.attrs[n - 1].isNa then GivenOf(node, n - 1)
    else GivenOf(node, n - 1)[node.attrPaths[n - 1] := node.attrs[n - 1]]
  }

  /** Without repeats, a path is given exactly when a message that is not open carries it. */
  lemma {:induction false} GivenIff(node: NodeParam, n: nat, p: string)
    requires n <= PairCount(node)
    ensures p in GivenOf(node, n) <==> exists i :: 0 <= i < n && node.attrPaths[i] == p && !node.attrs[i].isNa
    ensures NoRepeatedPath(node, n) ==>
              forall i :: 0 <= i < n && node.attrPaths[i] == p && !node.attrs[i].isNa ==>
                GivenOf(node, n)[p] == node.attrs[i]
  {
    if n > 0 { GivenIff(node, n - 1, p); }
  }

  ghost function Messages(given: Given): map<string, Entry> { map p | p in given :: Message(given[p]) }

  ghost predicate DistinctIo(ios: seq<IoDef>, n: nat)
    requires n <= |ios|
  {
    forall i, j :: 0 <= i < j < n ==> ios[i].name != ios[j].name
  }

  ghost predicate InputTypeOk(io: IoDef, data: DistData) { io.types == [] || data.typ in io.types }

  /** The first n inputs have distinct names and admitted types. */
  ghost predicate InputsOk(node: NodeParam, def: ComponentDef, n: nat)
    requires n <= |def.inputs| && n <= |node.inputs|
  {
    DistinctIo(def.inputs, n) && forall i :: 0 <= i < n ==> InputTypeOk(def.inputs[i], node.inputs[i])
  }

  /** The table maps the names of the first n definitions to the n-th instances, and nothing else. */
  ghost predicate Pairs<T>(table: map<string, T>, ios: seq<IoDef>, instances: seq<T>, n: nat)
    requires n <= |ios| && n <= |instances|
  {
    && (forall i :: 0 <= i < n ==> ios[i].name in table && table[ios[i].name] == instances[i])
    && (forall p :: p in table ==> exists i :: 0 <= i < n && ios[i].name == p)
  }

  /** Exactly the nodes a reader can be built for. */
  ghost predicate Acceptable(close: Closeness, node: NodeParam, def: ComponentDef) {
    && node.domain == def.domain && node.name == def.name && node.version == def.version
    && NoRepeatedPath(node, PairCount(node))
    && SlotsOk(close, GivenOf(node, PairCount(node)), Slots(def))
    && |node.inputs| == |def.inputs| && InputsOk(node, def, |def.inputs|)
    && |node.outputUris| == |def.outputs| && DistinctIo(def.outputs, |def.outputs|)
  }

  class Reader {
    var instanceAttrs: map<string, Entry>
    var instanceInputs: map<string, DistData>
    var instanceOutputs: map<string, string>

    constructor ()
    {
      instanceAttrs, instanceInputs, instanceOutputs := map[], map[], map[];
    }

    /** Collects the node's messages; a repeated path is refused. */
    method LoadAttrs(node: NodeParam) returns (ok: bool)
      modifies this`instanceAttrs
      ensures ok <==> NoRepeatedPath(node, PairCount(node))
      ensures ok ==> instanceAttrs == Messages(GivenOf(node, PairCount(node)))
    {
      instanceAttrs := map[];
      for i := 0 to PairCount(node)
        invariant NoRepeatedPath(node, i)
        invariant instanceAttrs == Messages(GivenOf(node, i))
      {
        var path, attr := node.attrPaths[i], node.attrs[i];
        GivenIff(node, i, path);
        if path in instanceAttrs { return false; }
        if !attr.isNa { instanceAttrs := instanceAttrs[path := Message(attr)]; }
      }
      ok := true;
    }

    /** Resolves one slot; an entry that already holds a value has no message to read and is an error. */
    method ResolveSlot(close: Closeness, ghost given: Given, slot: Slot, ghost done: seq<Slot>) returns (ok: bool)
      requires TableOf(instanceAttrs, close, given, done)
      modifies this`instanceAttrs
      ensures ok <==> SlotsOk(close, given, done + [slot])
      ensures ok ==> TableOf(instanceAttrs, close, given, done + [slot])
    {
      SlotsOkSnoc(close, given, done, slot);
      var name := slot.Name();
      var source := EMPTY_ATTRIBUTE;
      match slot {
      case AttrSlot(d) =>
        if !Supported(d.typ) { return false; }
        if name !in instanceAttrs {
          if !d.isOptional { return false; }
          source := d.default;
        } else if instanceAttrs[name].Value? {
          return false;
        } else {
          source := instanceAttrs[name].attr;
        }
        if !AllowedOk(close, source, d) { return false; }
        if !LowerOk(close, source, d) { return false; }
        if !UpperOk(close, source, d) { return false; }
      case ColumnSlot(_, col) =>
        if col.extraAttrs != 0 { return false; }
        if name in instanceAttrs {
          if instanceAttrs[name].Value? { return false; }
          source := instanceAttrs[name].attr;
        }
        if !ColumnCountOk(source, col) { return false; }
      }
      instanceAttrs := instanceAttrs[name := Value(GetValue(source, if slot.AttrSlot? then slot.d.typ else Strs))];
      TableSnoc(old(instanceAttrs), instanceAttrs, close, given, done, slot);
      ok := true;
    }

    method ResolveSlots(close: Closeness, ghost given: Given, slots: seq<Slot>, ghost done: seq<Slot>)
      returns (ok: bool)
      requires TableOf(instanceAttrs, close, given, done)
      modifies this`instanceAttrs
      ensures ok <==> SlotsOk(close, given, done + slots)
      ensures ok ==> TableOf(instanceAttrs, close, given, done + slots)
    {
      assert done + slots[..0] == done;
      for i := 0 to |slots|
        invariant TableOf(instanceAttrs, close, given, done + slots[..i])
      {
        assert done + slots[..i + 1] == (done + slots[..i]) + [slots[i]];
        ok := ResolveSlot(close, given, slots[i], done + slots[..i]);
        if !ok {
          assert done + slots == (done + slots[..i + 1]) + slots[i + 1..];
          if SlotsOk(close, given, done + slots) { SlotsOkPrefix(close, given, done + slots[..i + 1], slots[i + 1..]); }
          return;
        }
      }
      assert slots[..|slots|] == slots;
      ok := true;
    }

    /** Checks one input against its definition and records it. */
    method PairInput(node: NodeParam, def: ComponentDef, i: nat) returns (ok: bool)
      requires i < |def.inputs| && i < |node.inputs|
      requires InputsOk(node, def, i) && Pairs(instanceInputs, def.inputs, node.inputs, i)
      modifies this`instanceInputs
      ensures ok <==> InputsOk(node, def, i + 1)
      ensures ok ==> Pairs(instanceInputs, def.inputs, node.inputs, i + 1)
    {
      var io, data := def.inputs[i], node.inputs[i];
      if io.name in instanceInputs {
        PairsAdd(instanceInputs, def.inputs, node.inputs, i);
        return false;
      }
      if io.types != [] && data.typ !in io.types { return false; }
      PairsAdd(instanceInputs, def.inputs, node.inputs, i);
      instanceInputs := instanceInputs[io.name := data];
      return true;
    }

    /** The first n inputs are paired and their columns resolved. */
    ghost predicate InputsDone(close: Closeness, node: NodeParam, def: ComponentDef, given: Given, n: nat)
      requires n <= |def.inputs| && n <= |node.inputs|
      reads this
    {
      && InputsOk(node, def, n)
      && Pairs(instanceInputs, def.inputs, node.inputs, n)
      && TableOf(instanceAttrs, close, given, AttrSlots(def.attrs) + InputSlots(def.inputs[..n]))
    }

    lemma AllInputsDone(close: Closeness, node: NodeParam, def: ComponentDef, given: Given)
      requires |def.inputs| == |node.inputs| && InputsDone(close, node, def, given, |def.inputs|)
      ensures InputsOk(node, def, |def.inputs|) && SlotsOk(close, given, Slots(def))
      ensures TableOf(instanceAttrs, close, given, Slots(def))
      ensures Pairs(instanceInputs, def.inputs, node.inputs, |def.inputs|)
    {
      assert def.inputs[..|def.inputs|] == def.inputs;
    }

    lemma NoInputsDone(close: Closeness, node: NodeParam, def: ComponentDef, given: Given)
      requires instanceInputs == map[] && TableOf(instanceAttrs, close, given, AttrSlots(def.attrs))
      ensures InputsDone(close, node, def, given, 0)
    {
      assert def.inputs[..0] == [] && AttrSlots(def.attrs) + [] == AttrSlots(def.attrs);
    }

    /** Pairs one input with its definition and resolves its columns. */
    method ResolveInput(close: Closeness, node: NodeParam, def: ComponentDef, ghost given: Given, i: nat)
      returns (ok: bool)
      requires i < |def.inputs| == |node.inputs| && InputsDone(close, node, def, given, i)
      modifies this`instanceAttrs, this`instanceInputs
      ensures ok ==> InputsDone(close, node, def, given, i + 1)
      ensures !ok ==> !(InputsOk(node, def, |def.inputs|) && SlotsOk(close, given, Slots(def)))
    {
      ghost var done := AttrSlots(def.attrs) + InputSlots(def.inputs[..i]);
      ok := PairInput(node, def, i);
      if !ok { return; }
      InputSlotsStep(def.inputs, i, AttrSlots(def.attrs));
      ok := ResolveSlots(close, given, ColumnSlots(def.inputs[i]), done);
      if !ok { FailedEarlier(close, given, def, i + 1); }
    }

    /** Pairs inputs with their definitions and resolves the columns of each. */
    method ResolveInputs(close: Closeness, node: NodeParam, def: ComponentDef, ghost given: Given) returns (ok: bool)
      requires |node.inputs| == |def.inputs|
      requires TableOf(instanceAttrs, close, given, AttrSlots(def.attrs))
      modifies this`instanceAttrs, this`instanceInputs
      ensures ok <==> InputsOk(node, def, |def.inputs|) && SlotsOk(close, given, Slots(def))
      ensures ok ==> TableOf(instanceAttrs, close, given, Slots(def))
      ensures ok ==> Pairs(instanceInputs, def.inputs, node.inputs, |def.inputs|)
    {
      instanceInputs := map[];
      NoInputsDone(close, node, def, given);
      for i := 0 to |def.inputs|
        invariant InputsDone(close, node, def, given, i)
      {
        ok := ResolveInput(close, node, def, given, i);
        if !ok { return; }
      }
      AllInputsDone(close, node, def, given);
      ok := true;
    }

    method PairOutputs(node: NodeParam, def: ComponentDef) returns (ok: bool)
      requires |node.outputUris| == |def.outputs|
      modifies this`instanceOutputs
      ensures ok <==> DistinctIo(def.outputs, |def.outputs|)
      ensures ok ==> Pairs(instanceOutputs, def.outputs, node.outputUris, |def.outputs|)
    {
      instanceOutputs := map[];
      for i := 0 to |def.outputs|
        invariant DistinctIo(def.outputs, i) && Pairs(instanceOutputs, def.outputs, node.outputUris, i)
      {
        PairsAdd(instanceOutputs, def.outputs, node.outputUris, i);
        if def.outputs[i].name in instanceOutputs { return false; }
        instanceOutputs := instanceOutputs[def.outputs[i].name := node.outputUris[i]];
      }
      ok := true;
    }

    /** The reader is built exactly for acceptable nodes. Then every declared attribute and column has
        one entry, read from the node's own message or from the default, and every declared input and
        output is paired with its instance. */
    method Preprocess(close: Closeness, node: NodeParam, def: ComponentDef) returns (ok: bool)
      modifies this
      ensures ok <==> Acceptable(close, node, def)
      ensures ok ==>
                && TableOf(instanceAttrs, close, GivenOf(node, PairCount(node)), Slots(def))
                && Pairs(instanceInputs, def.inputs, node.inputs, |def.inputs|)
                && Pairs(instanceOutputs, def.outputs, node.outputUris, |def.outputs|)
    {
      if node.domain != def.domain { return false; }
      if node.name != def.name { return false; }
      if node.version != def.version { return false; }
      ok := LoadAttrs(node);
      if !ok { return; }
      ghost var given := GivenOf(node, PairCount(node));
      EmptyTable(instanceAttrs, close, given);
      ok := ResolveSlots(close, given, AttrSlots(def.attrs), []);
      assert [] + AttrSlots(def.attrs) == AttrSlots(def.attrs);
      if !ok {
        if SlotsOk(close, given, Slots(def)) {
          SlotsOkPrefix(close, given, AttrSlots(def.attrs), InputSlots(def.inputs));
        }
        return;
      }
      if |node.inputs| != |def.inputs| { return false; }
      ok := ResolveInputs(close, node, def, given);
      if !ok { return; }
      if |node.outputUris| != |def.outputs| { return false; }
      ok := PairOutputs(node, def);
    }

    static lemma TableSnoc(before: map<string, Entry>, after: map<string, Entry>, close: Closeness,
                           given: Given, done: seq<Slot>, slot: Slot)
      requires TableOf(before, close, given, done) && SlotOk(close, given, slot) && !IsSlotName(done, slot.Name())
      requires after == before[slot.Name() := Value(SlotValue(given, slot))]
      ensures TableOf(after, close, given, done + [slot])
    {
      var all := done + [slot];
      SlotsOkSnoc(close, given, done, slot);
      assert all[|done|] == slot;
      forall i | 0 <= i < |all|
        ensures all[i].Name() in after && after[all[i].Name()] == Value(SlotValue(given, all[i])) {
        if i < |done| { assert all[i] == done[i]; }
      }
      forall p ensures IsSlotName(all, p) <==> IsSlotName(done, p) || p == slot.Name() {
        if IsSlotName(done, p) {
          var i :| 0 <= i < |done| && done[i].Name() == p;
          assert all[i].Name() == p;
        }
      }
    }

    /** What is wrong among the first inputs is wrong for all. */
    static lemma FailedEarlier(close: Closeness, given: Given, def: ComponentDef, n: nat)
      requires n <= |def.inputs| && !SlotsOk(close, given, AttrSlots(def.attrs) + InputSlots(def.inputs[..n]))
      ensures !SlotsOk(close, given, Slots(def))
    {
      var prefix := AttrSlots(def.attrs) + InputSlots(def.inputs[..n]);
      var rest := InputSlotsRest(def.inputs, n);
      assert Slots(def) == prefix + rest;
      if SlotsOk(close, given, prefix + rest) { SlotsOkPrefix(close, given, prefix, rest); }
    }

    static lemma EmptyTable(table: map<string, Entry>, close: Closeness, given: Given)
      requires table == Messages(given)
      ensures TableOf(table, close, given, [])
    {}

    /** A name is in the table exactly when it repeats; a new one extends the pairing. */
    static lemma PairsAdd<T>(table: map<string, T>, ios: seq<IoDef>, instances: seq<T>, n: nat)
      requires n < |ios| && n < |instances| && DistinctIo(ios, n) && Pairs(table, ios, instances, n)
      ensures ios[n].name in table <==> !DistinctIo(ios, n + 1)
      ensures ios[n].name !in table ==> Pairs(table[ios[n].name := instances[n]], ios, instances, n + 1)
    {
      var name := ios[n].name;
      if name in table {
        var i :| 0 <= i < n && ios[i].name == name;
        assert ios[i].name == ios[n].name;
      } else {
        var after := table[name := instances[n]];
        forall p | p in after ensures exists i :: 0 <= i < n + 1 && ios[i].name == p {
          if p == name {
            assert ios[n].name == p;
          } else {
            var i :| 0 <= i < n && ios[i].name == p;
            assert ios[i].name == p;
          }
        }
      }
    }

    static lemma InputSlotsStep(inputs: seq<IoDef>, i: nat, attrs: seq<Slot>)
      requires i < |inputs|
      ensures attrs + InputSlots(inputs[..i + 1]) == (attrs + InputSlots(inputs[..i])) + ColumnSlots(inputs[i])
    {
      assert inputs[..i + 1][..i] == inputs[..i];
    }

    static lemma {:induction false} InputSlotsRest(inputs: seq<IoDef>, i: nat) returns (rest: seq<Slot>)
      requires i <= |inputs|
      ensures InputSlots(inputs) == InputSlots(inputs[..i]) + rest
      decreases |inputs| - i
    {
      if i == |inputs| {
        assert inputs[..i] == inputs;
        rest := [];
      } else {
        var more := InputSlotsRest(inputs, i + 1);
        InputSlotsStep(inputs, i, []);
        assert [] + InputSlots(inputs[..i + 1]) == InputSlots(inputs[..i + 1])
               && [] + InputSlots(inputs[..i]) == InputSlots(inputs[..i]);
        rest := ColumnSlots(inputs[i]) + more;
      }
    }
  }
}
