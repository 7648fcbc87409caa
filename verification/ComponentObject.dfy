/** The component object itself: its declaration methods and `definition()`. */
module ComponentObject {
  import opened Octets
  import opened EvalParams
  import opened Components

  class Component {
    const domain: string
    const name: string
    const version: string
    var attrDecls: seq<AttrDef>
    var inputDecls: seq<IoDef>
    var outputDecls: seq<IoDef>
    var argNames: set<string>
    var cached: Option<ComponentDef>

    ghost function View(): CompState
      reads this
    {
      CompState(attrDecls, inputDecls, outputDecls, argNames, cached)
    }

    constructor (name: string, domain: string, version: string)
      ensures this.name == name && this.domain == domain && this.version == version && View() == NEW_COMPONENT
    {
      this.name, this.domain, this.version := name, domain, version;
      attrDecls, inputDecls, outputDecls, argNames, cached := [], [], [], {}, None;
    }

    /** Appends the declaration exactly when it is acceptable; a refused one changes nothing. */
    method IntAttr(p: IntParams) returns (ok: bool)
      modifies this
      ensures ok <==> IntAccepted(p)
      ensures View() == if ok then StepOp(old(View()), DeclareAttr(IntDef(p)), domain, name, version) else old(View())
    {
      if p.name in RESERVED { return false; }
      if p.isOptional && p.default.None? { return false; }
      if p.allowed.Some? && (p.lower.Some? || p.upper.Some?) { return false; }
      if p.lower.Some? && p.upper.Some? && p.lower.value > p.upper.value { return false; }
      if p.default.Some? {
        if p.default.value.ManyInts? != p.isList { return false; }
        var values := DefaultInts(p.default.value);
        for i := 0 to |values|
          invariant View() == old(View())
          invariant forall j :: 0 <= j < i ==>
                      var v := values[j];
                      (p.allowed.Some? ==> v in p.allowed.value) && AboveLower(v, p) && BelowUpper(v, p) && FitsI64(v)
        {
          if p.allowed.Some? && values[i] !in p.allowed.value { return false; }
          if !AboveLower(values[i], p) { return false; }
          if !BelowUpper(values[i], p) { return false; }
          if !FitsI64(values[i]) { return false; }
        }
      }
      if !ListLengthsOk(p.isList, p.listMin, p.listMax) { return false; }
      if p.allowed.Some? {
        for i := 0 to |p.allowed.value|
          invariant View() == old(View())
          invariant forall j :: 0 <= j < i ==> FitsI64(p.allowed.value[j])
        {
          if !FitsI64(p.allowed.value[i]) { return false; }
        }
      }
      if p.lower.Some? && !FitsI64(p.lower.value) { return false; }
      if p.upper.Some? && !FitsI64(p.upper.value) { return false; }
      attrDecls := attrDecls + [IntDef(p)];
      return true;
    }

    method StrAttr(p: StrParams) returns (ok: bool)
      modifies this
      ensures ok <==> StrAccepted(p)
      ensures View() == if ok then StepOp(old(View()), DeclareAttr(StrDef(p)), domain, name, version) else old(View())
    {
      if p.name in RESERVED { return false; }
      if p.isOptional && p.default.None? { return false; }
      if p.default.Some? {
        if p.default.value.ManyStrs? && !p.isList { return false; }
        var values := DefaultStrs(p.default.value, p.isList);
        for i := 0 to |values|
          invariant View() == old(View())
          invariant forall j :: 0 <= j < i && p.allowed.Some? ==> values[j] in p.allowed.value
        {
          if p.allowed.Some? && values[i] !in p.allowed.value { return false; }
        }
      }
      if !ListLengthsOk(p.isList, p.listMin, p.listMax) { return false; }
      attrDecls := attrDecls + [StrDef(p)];
      return true;
    }

    method BoolAttr(p: BoolParams) returns (ok: bool)
      modifies this
      ensures ok <==> BoolAccepted(p)
      ensures View() == if ok then StepOp(old(View()), DeclareAttr(BoolDef(p)), domain, name, version) else old(View())
    {
      if p.name in RESERVED { return false; }
      if p.isOptional && p.default.None? { return false; }
      if !ListLengthsOk(p.isList, p.listMin, p.listMax) { return false; }
      if p.default.Some? && p.default.value.ManyBools? != p.isList { return false; }
      attrDecls := attrDecls + [BoolDef(p)];
      return true;
    }

    method Io(isInput: bool, io: IoDef) returns (ok: bool)
      modifies this
      ensures ok <==> IoAccepted(io)
      ensures View() == if !ok then old(View())
                        else StepOp(old(View()),
                                    if isInput then DeclareInput(io) else DeclareOutput(io), domain, name, version)
    {
      if io.name in RESERVED { return false; }
      for i := 0 to |io.types|
        invariant View() == old(View())
        invariant forall j :: 0 <= j < i ==> io.types[j] in SUPPORTED_TYPES
      {
        if io.types[i] !in SUPPORTED_TYPES { return false; }
      }
      if isInput {
        inputDecls := inputDecls + [io];
      } else {
        outputDecls := outputDecls + [io];
      }
      return true;
    }

    method Definition() returns (r: Option<ComponentDef>)
      modifies this
      ensures View() == Define(old(View()), domain, name, version)
      ensures r == cached
    {
      if cached.Some? { return cached; }
      ghost var start := argNames;
      ghost var attrEvents, inputEvents, outputEvents :=
        AttrEvents(attrDecls), InputEvents(inputDecls), OutputEvents(outputDecls);
      assert ClaimsFor(AttrNames()) == attrEvents && ClaimsFor(IoNames(outputDecls)) == outputEvents;
      var ok := ClaimAll(AttrNames());
      ProcessConcat(attrEvents + inputEvents, outputEvents, start);
      ProcessConcat(attrEvents, inputEvents, start);
      if !ok { return None; }
      ok := ClaimInputs();
      if !ok { return None; }
      ok := ClaimAll(IoNames(outputDecls));
      if !ok { return None; }
      cached := Some(ComponentDef(domain, name, version, attrDecls, inputDecls, outputDecls));
      return cached;
    }

    function AttrNames(): (r: seq<string>)
      reads this
      ensures |r| == |attrDecls| && forall i :: 0 <= i < |r| ==> r[i] == attrDecls[i].name
    {
      var decls := attrDecls;
      seq(|decls|, i requires 0 <= i < |decls| => decls[i].name)
    }

    /** Claims names one after the other and stops at the first that is taken. */
    method ClaimAll(names: seq<string>) returns (ok: bool)
      modifies this`argNames
      ensures (argNames, ok) == Process(ClaimsFor(names), old(argNames))
    {
      assert ClaimsFor(names)[..0] == [];
      for i := 0 to |names|
        invariant Process(ClaimsFor(names)[..i], old(argNames)) == (argNames, true)
      {
        ProcessStep(ClaimsFor(names), i, old(argNames));
        if names[i] in argNames { return false; }
        argNames := argNames + {names[i]};
      }
      assert ClaimsFor(names)[..|names|] == ClaimsFor(names);
      return true;
    }

    static function ClaimsFor(names: seq<string>): (r: seq<Event>)
      ensures |r| == |names| && forall i :: 0 <= i < |r| ==> r[i] == Claim(names[i])
    {
      seq(|names|, i requires 0 <= i < |names| => Claim(names[i]))
    }

    static lemma ProcessStep(events: seq<Event>, i: nat, names: set<string>)
      requires i < |events| && Process(events[..i], names).1
      ensures var taken := Process(events[..i], names).0;
              if events[i].Claim? && events[i].name in taken then Process(events, names) == (taken, false)
              else Process(events[..i + 1], names) == (taken + {events[i].name}, true)
    {
      var taken := Process(events[..i], names).0;
      assert events == events[..i] + events[i..];
      ProcessConcat(events[..i], events[i..], names);
      assert events[..i + 1] == events[..i] + [events[i]];
      ProcessConcat(events[..i], [events[i]], names);
      if !(events[i].Claim? && events[i].name in taken) {
        assert Process([events[i]], taken) == Process([events[i]][1..], taken + {events[i].name});
      }
    }

    method ClaimInputs() returns (ok: bool)
      modifies this`argNames
      ensures (argNames, ok) == Process(InputEvents(inputDecls), old(argNames))
    {
      assert inputDecls[..0] == [];
      for i := 0 to |inputDecls|
        invariant Process(InputEvents(inputDecls[..i]), old(argNames)) == (argNames, true)
      {
        var io := inputDecls[i];
        ghost var front := InputEvents(inputDecls[..i]);
        InputEventsPrefix(inputDecls, i, old(argNames));
        assert inputDecls[..i + 1][..i] == inputDecls[..i];
        ProcessConcat(front + [Claim(io.name)], ColumnEvents(io), old(argNames));
        ProcessConcat(front, [Claim(io.name)], old(argNames));
        ok := ClaimAll([io.name]);
        assert ClaimsFor([io.name]) == [Claim(io.name)];
        if !ok { return; }
        TakeColumns(io);
      }
      assert inputDecls[..|inputDecls|] == inputDecls;
      ok := true;
    }

    method TakeColumns(io: IoDef)
      modifies this`argNames
      ensures (argNames, true) == Process(ColumnEvents(io), old(argNames))
    {
      assert ColumnEvents(io)[..0] == [];
      for i := 0 to |io.columns|
        invariant Process(ColumnEvents(io)[..i], old(argNames)) == (argNames, true)
      {
        ProcessStep(ColumnEvents(io), i, old(argNames));
        argNames := argNames + {io.name + "_" + io.columns[i].name};
      }
      assert ColumnEvents(io)[..|io.columns|] == ColumnEvents(io);
    }

    /** A failure among the first inputs is the failure of all. */
    static lemma {:induction false} InputEventsPrefix(inputs: seq<IoDef>, i: nat, names: set<string>)
      requires i < |inputs|
      ensures var upTo := InputEvents(inputs[..i]) + [Claim(inputs[i].name)];
              !Process(upTo, names).1 ==> Process(InputEvents(inputs), names) == Process(upTo, names)
      decreases |inputs|
    {
      var n := |inputs| - 1;
      var last := inputs[n];
      var upTo := InputEvents(inputs[..i]) + [Claim(inputs[i].name)];
      ProcessConcat(InputEvents(inputs[..n]) + [Claim(last.name)], ColumnEvents(last), names);
      if i < n {
        InputEventsPrefix(inputs[..n], i, names);
        assert inputs[..n][..i] == inputs[..i];
        ProcessConcat(InputEvents(inputs[..n]), [Claim(last.name)], names);
      }
    }
  }
}
