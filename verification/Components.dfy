/** Component declarations: which attribute declarations are accepted, and when `definition()`
    returns a definition. */
module Components {
  import opened Octets
  import opened EvalParams

  const RESERVED: seq<string> := ["input", "output"]

  /** Values that fit an int64 slot of a message. */
  predicate FitsI64(x: int) { MIN_I64 <= x <= MAX_I64 }

  /******* Integer attributes *******/

  datatype IntDefault = OneInt(i: int) | ManyInts(i64s: seq<int>)

  datatype IntParams = IntParams(
    name: string, isList: bool, isOptional: bool, default: Option<IntDefault>, allowed: Option<seq<int>>,
    lower: Option<int>, upper: Option<int>, lowerInclusive: bool, upperInclusive: bool,
    listMin: Option<int>, listMax: Option<int>)

  function DefaultInts(d: IntDefault): seq<int> {
    match d case OneInt(i) => [i] case ManyInts(s) => s
  }

  predicate AboveLower(v: int, p: IntParams) {
    p.lower.Some? ==> v > p.lower.value || (p.lowerInclusive && v == p.lower.value)
  }

  predicate BelowUpper(v: int, p: IntParams) {
    p.upper.Some? ==> v < p.upper.value || (p.upperInclusive && v == p.upper.value)
  }

  /** The two lengths of a list are in order and fit their slots; of a scalar they are not stored. */
  predicate ListLengthsOk(isList: bool, lo: Option<int>, hi: Option<int>) {
    && (lo.Some? && hi.Some? ==> lo.value <= hi.value)
    && FitsI64(ListMin(isList, lo)) && FitsI64(ListMax(isList, hi))
  }

  function ListMin(isList: bool, lo: Option<int>): int { if isList && lo.Some? then lo.value else 0 }

  function ListMax(isList: bool, hi: Option<int>): int {
    if !isList then 0 else if hi.Some? then hi.value else -1
  }

  /** The declarations `int_attr` takes without raising. */
  predicate IntAccepted(p: IntParams) {
    && p.name !in RESERVED
    && (p.isOptional ==> p.default.Some?)
    && (p.allowed.Some? ==> p.lower.None? && p.upper.None?)
    && (p.lower.Some? && p.upper.Some? ==> p.lower.value <= p.upper.value)
    && (p.default.Some? ==>
          && p.default.value.ManyInts? == p.isList
          && forall i :: 0 <= i < |DefaultInts(p.default.value)| ==>
               var v := DefaultInts(p.default.value)[i];
               && (p.allowed.Some? ==> v in p.allowed.value)
               && AboveLower(v, p) && BelowUpper(v, p) && FitsI64(v))
    && ListLengthsOk(p.isList, p.listMin, p.listMax)
    && (p.allowed.Some? ==> forall i :: 0 <= i < |p.allowed.value| ==> FitsI64(p.allowed.value[i]))
    && (p.lower.Some? ==> FitsI64(p.lower.value))
    && (p.upper.Some? ==> FitsI64(p.upper.value))
  }

  function IntBound(b: Option<int>, inclusive: bool): Bound
    requires b.Some? ==> FitsI64(b.value)
  {
    match b case None => Unbounded case Some(v) => Bound(EMPTY_ATTRIBUTE.(i64 := v), inclusive)
  }

  function IntDef(p: IntParams): AttrDef
    requires IntAccepted(p)
  {
    AttrDef([], p.name, if p.isList then Ints else Int, p.isOptional,
            (match p.default
             case None => EMPTY_ATTRIBUTE
             case Some(OneInt(i)) => assert DefaultInts(p.default.value)[0] == i; EMPTY_ATTRIBUTE.(i64 := i)
             case Some(ManyInts(s)) =>
               assert forall k :: 0 <= k < |s| ==> FitsI64(DefaultInts(p.default.value)[k]) && FitsI64(s[k]);
               EMPTY_ATTRIBUTE.(i64s := s)),
            (if p.allowed.Some? then EMPTY_ATTRIBUTE.(i64s := p.allowed.value) else EMPTY_ATTRIBUTE),
            IntBound(p.lower, p.lowerInclusive), IntBound(p.upper, p.upperInclusive),
            ListMin(p.isList, p.listMin), ListMax(p.isList, p.listMax))
  }

  /******* String and boolean attributes *******/

  datatype StrDefault = OneStr(s: string) | ManyStrs(ss: seq<string>)

  datatype StrParams = StrParams(
    name: string, isList: bool, isOptional: bool, default: Option<StrDefault>, allowed: Option<seq<string>>,
    listMin: Option<int>, listMax: Option<int>)

  function Letters(s: string): seq<string> { seq(|s|, i requires 0 <= i < |s| => [s[i]]) }

  /** A plain string given as the default of a list counts as the list of its characters. */
  function DefaultStrs(d: StrDefault, isList: bool): seq<string> {
    match d case OneStr(s) => (if isList then Letters(s) else [s]) case ManyStrs(ss) => ss
  }

  predicate StrAccepted(p: StrParams) {
    && p.name !in RESERVED
    && (p.isOptional ==> p.default.Some?)
    && (p.default.Some? ==>
          && (p.default.value.OneStr? || p.isList)
          && (p.allowed.Some? ==>
                forall i :: 0 <= i < |DefaultStrs(p.default.value, p.isList)| ==>
                  DefaultStrs(p.default.value, p.isList)[i] in p.allowed.value))
    && ListLengthsOk(p.isList, p.listMin, p.listMax)
  }

  function StrDef(p: StrParams): AttrDef
    requires StrAccepted(p)
  {
    AttrDef([], p.name, if p.isList then Strs else Str, p.isOptional,
            (if p.default.None? then EMPTY_ATTRIBUTE
             else if p.isList then EMPTY_ATTRIBUTE.(ss := DefaultStrs(p.default.value, true))
             else match p.default.value case OneStr(s) => EMPTY_ATTRIBUTE.(s := s) case ManyStrs(_) => EMPTY_ATTRIBUTE),
            (if p.allowed.Some? then EMPTY_ATTRIBUTE.(ss := p.allowed.value) else EMPTY_ATTRIBUTE),
            Unbounded, Unbounded, ListMin(p.isList, p.listMin), ListMax(p.isList, p.listMax))
  }

  datatype BoolDefault = OneBool(b: bool) | ManyBools(bs: seq<bool>)

  datatype BoolParams = BoolParams(
    name: string, isList: bool, isOptional: bool, default: Option<BoolDefault>,
    listMin: Option<int>, listMax: Option<int>)

  predicate BoolAccepted(p: BoolParams) {
    && p.name !in RESERVED
    && (p.isOptional ==> p.default.Some?)
    && (p.default.Some? ==> p.default.value.ManyBools? == p.isList)
    && ListLengthsOk(p.isList, p.listMin, p.listMax)
  }

  function BoolDef(p: BoolParams): AttrDef
    requires BoolAccepted(p)
  {
    AttrDef([], p.name, if p.isList then Bools else Bool, p.isOptional,
            (match p.default
             case None => EMPTY_ATTRIBUTE
             case Some(OneBool(b)) => EMPTY_ATTRIBUTE.(b := b)
             case Some(ManyBools(bs)) => EMPTY_ATTRIBUTE.(bs := bs)),
            EMPTY_ATTRIBUTE, Unbounded, Unbounded, ListMin(p.isList, p.listMin), ListMax(p.isList, p.listMax))
  }

  /******* Declaration and reader agree *******/

  /** A node that leaves out an accepted optional integer is not refused for it and reads the default. */
  lemma OmittedIntReadsDefault(close: Closeness, given: Given, p: IntParams)
    requires IntAccepted(p) && p.isOptional && AttrSlot(IntDef(p)).Name() !in given
    ensures SlotOk(close, given, AttrSlot(IntDef(p)))
    ensures SlotValue(given, AttrSlot(IntDef(p))) ==
            match p.default.value case OneInt(i) => VI(i) case ManyInts(s) => VIs(s)
  {
    var ints := DefaultInts(p.default.value);
    if !p.isList { assert ints[0] == p.default.value.i; }
  }

  /** A node that sets an accepted scalar integer is refused exactly when the value is not one of the
      allowed ones or lies outside the declared interval. */
  lemma GivenIntAcceptedIff(close: Closeness, given: Given, p: IntParams)
    requires IntAccepted(p) && !p.isList && AttrSlot(IntDef(p)).Name() in given
    ensures var v := given[AttrSlot(IntDef(p)).Name()].i64;
            SlotOk(close, given, AttrSlot(IntDef(p))) <==>
              && (p.allowed.Some? && p.allowed.value != [] ==> v in p.allowed.value)
              && (p.lower.Some? ==> v >= p.lower.value + (if p.lowerInclusive then 0 else 1))
              && (p.upper.Some? ==> v <= p.upper.value - (if p.upperInclusive then 0 else 1))
  {}

  lemma OmittedStrReadsDefault(close: Closeness, given: Given, p: StrParams)
    requires StrAccepted(p) && p.isOptional && AttrSlot(StrDef(p)).Name() !in given
    ensures SlotOk(close, given, AttrSlot(StrDef(p)))
    ensures SlotValue(given, AttrSlot(StrDef(p))) ==
            if p.isList then VSs(DefaultStrs(p.default.value, true)) else VS(p.default.value.s)
  {
    if !p.isList { assert DefaultStrs(p.default.value, false)[0] == p.default.value.s; }
  }

  lemma OmittedBoolReadsDefault(close: Closeness, given: Given, p: BoolParams)
    requires BoolAccepted(p) && p.isOptional && AttrSlot(BoolDef(p)).Name() !in given
    ensures SlotOk(close, given, AttrSlot(BoolDef(p)))
    ensures SlotValue(given, AttrSlot(BoolDef(p))) ==
            match p.default.value case OneBool(b) => VB(b) case ManyBools(bs) => VBs(bs)
  {}

  /******* Building the definition *******/

  /** What `definition()` does with names: a declared name must be new, the joined name of an input
      column is taken without a check. */
  datatype Event = Claim(name: string) | Take(name: string)

  function Process(events: seq<Event>, names: set<string>): (set<string>, bool)
    decreases |events|
  {
    if events == [] then (names, true)
    else if events[0].Claim? && events[0].name in names then (names, false)
    else Process(events[1..], names + {events[0].name})
  }

  lemma {:induction false} ProcessConcat(xs: seq<Event>, ys: seq<Event>, names: set<string>)
    ensures Process(xs + ys, names) ==
            if Process(xs, names).1 then Process(ys, Process(xs, names).0) else Process(xs, names)
    decreases |xs|
  {
    if xs == [] {
      assert xs + ys == ys;
    } else {
      assert (xs + ys)[1..] == xs[1..] + ys;
      if !(xs[0].Claim? && xs[0].name in names) { ProcessConcat(xs[1..], ys, names + {xs[0].name}); }
    }
  }

  /** Names only accumulate; a name claimed before stays taken. */
  lemma {:induction false} ProcessGrows(events: seq<Event>, names: set<string>)
    ensures names <= Process(events, names).0
    decreases |events|
  {
    if events != [] && !(events[0].Claim? && events[0].name in names) {
      ProcessGrows(events[1..], names + {events[0].name});
    }
  }

  /** It succeeds exactly when no claimed name was taken before it. */
  lemma {:induction false} ProcessIff(events: seq<Event>, names: set<string>)
    ensures Process(events, names).1 <==>
            forall k :: 0 <= k < |events| && events[k].Claim? ==>
              events[k].name !in names && forall i :: 0 <= i < k ==> events[i].name != events[k].name
    decreases |events|
  {
    if events != [] {
      var rest, more := events[1..], names + {events[0].name};
      ProcessIff(rest, more);
      if Process(events, names).1 {
        forall k | 0 <= k < |events| && events[k].Claim?
          ensures events[k].name !in names && forall i :: 0 <= i < k ==> events[i].name != events[k].name
        {
          if k > 0 {
            assert rest[k - 1] == events[k] && rest[k - 1].name !in more;
            forall i | 0 <= i < k ensures events[i].name != events[k].name {
              if i > 0 { assert rest[i - 1] == events[i]; }
            }
          }
        }
      } else if !(events[0].Claim? && events[0].name in names) {
        var k :| 0 <= k < |rest| && rest[k].Claim? &&
                 !(rest[k].name !in more && forall i :: 0 <= i < k ==> rest[i].name != rest[k].name);
        assert events[k + 1] == rest[k];
        if rest[k].name in more {
          assert rest[k].name in names || events[0].name == events[k + 1].name;
        } else {
          var i :| 0 <= i < k && rest[i].name == rest[k].name;
          assert events[i + 1] == rest[i];
        }
      }
    }
  }

  /******* The component object *******/

  datatype CompState = CompState(
    attrs: seq<AttrDef>, inputs: seq<IoDef>, outputs: seq<IoDef>,
    argNames: set<string>, definition: Option<ComponentDef>)

  const NEW_COMPONENT: CompState := CompState([], [], [], {}, None)

  const SUPPORTED_TYPES: set<string> :=
    {"sf.table.vertical_table", "sf.table.individual", "sf.model.ss_sgd", "sf.model.sgb", "sf.rule.woe_binning",
     "sf.model.ss_xgb", "sf.report"}

  predicate IoAccepted(io: IoDef) {
    io.name !in RESERVED && forall i :: 0 <= i < |io.types| ==> io.types[i] in SUPPORTED_TYPES
  }

  function AttrEvents(attrs: seq<AttrDef>): (r: seq<Event>)
    ensures |r| == |attrs|
  {
    seq(|attrs|, i requires 0 <= i < |attrs| => Claim(attrs[i].name))
  }

  function ColumnEvents(io: IoDef): (r: seq<Event>)
    ensures |r| == |io.columns|
  {
    seq(|io.columns|, i requires 0 <= i < |io.columns| => Take(io.name + "_" + io.columns[i].name))
  }

  function InputEvents(inputs: seq<IoDef>): seq<Event> {
    if inputs == [] then []
    else
      var io := inputs[|inputs| - 1];
      InputEvents(inputs[..|inputs| - 1]) + [Claim(io.name)] + ColumnEvents(io)
  }

  function OutputEvents(outputs: seq<IoDef>): (r: seq<Event>)
    ensures |r| == |outputs|
  {
    seq(|outputs|, i requires 0 <= i < |outputs| => Claim(outputs[i].name))
  }

  function Events(s: CompState): seq<Event> {
    AttrEvents(s.attrs) + InputEvents(s.inputs) + OutputEvents(s.outputs)
  }

  /** One call of `definition()`: a cached definition is returned as it is; otherwise names are
      claimed, and a failure leaves those claimed so far behind. */
  function Define(s: CompState, domain: string, name: string, version: string): CompState {
    if s.definition.Some? then s
    else
      var (names, ok) := Process(Events(s), s.argNames);
      s.(argNames := names,
         definition := if ok then Some(ComponentDef(domain, name, version, s.attrs, s.inputs, s.outputs)) else None)
  }

  datatype Op = DeclareAttr(d: AttrDef) | DeclareInput(io: IoDef) | DeclareOutput(io: IoDef) | CallDefinition

  function StepOp(s: CompState, op: Op, domain: string, name: string, version: string): CompState {
    match op
    case DeclareAttr(d) => s.(attrs := s.attrs + [d])
    case DeclareInput(io) => s.(inputs := s.inputs + [io])
    case DeclareOutput(io) => s.(outputs := s.outputs + [io])
    case CallDefinition => Define(s, domain, name, version)
  }

  function RunOps(s: CompState, ops: seq<Op>, domain: string, name: string, version: string): CompState
    decreases |ops|
  {
    if ops == [] then s else RunOps(StepOp(s, ops[0], domain, name, version), ops[1..], domain, name, version)
  }

  ghost predicate IsClaimed(s: CompState, n: string) {
    || (exists i :: 0 <= i < |s.attrs| && s.attrs[i].name == n)
    || (exists i :: 0 <= i < |s.inputs| && s.inputs[i].name == n)
    || (exists i :: 0 <= i < |s.outputs| && s.outputs[i].name == n)
  }

  /** A failed call has left a declared name among the claimed ones. */
  ghost predicate Stuck(s: CompState) {
    s.definition.None? && exists n :: n in s.argNames && IsClaimed(s, n)
  }

  lemma {:induction false} InputNameIsEvent(inputs: seq<IoDef>, i: nat)
    requires i < |inputs|
    ensures Claim(inputs[i].name) in InputEvents(inputs)
  {
    var n := |inputs| - 1;
    if i < n {
      InputNameIsEvent(inputs[..n], i);
      assert inputs[..n][i] == inputs[i];
    } else {
      var front := InputEvents(inputs[..n]);
      assert InputEvents(inputs)[|front|] == Claim(inputs[i].name);
    }
  }

  lemma ClaimedIsEvent(s: CompState, n: string)
    requires IsClaimed(s, n)
    ensures Claim(n) in Events(s)
  {
    if i :| 0 <= i < |s.attrs| && s.attrs[i].name == n {
      assert AttrEvents(s.attrs)[i] == Claim(n);
      assert Events(s)[i] == Claim(n);
    } else if i :| 0 <= i < |s.inputs| && s.inputs[i].name == n {
      InputNameIsEvent(s.inputs, i);
    } else {
      var i :| 0 <= i < |s.outputs| && s.outputs[i].name == n;
      assert OutputEvents(s.outputs)[i] == Claim(n);
    }
  }

  /** A component that is stuck stays stuck through every later declaration and call. */
  lemma StuckStep(s: CompState, op: Op, domain: string, name: string, version: string)
    requires Stuck(s)
    ensures Stuck(StepOp(s, op, domain, name, version))
  {
    var n :| n in s.argNames && IsClaimed(s, n);
    var t := StepOp(s, op, domain, name, version);
    match op
    case CallDefinition =>
      ClaimedIsEvent(s, n);
      ProcessIff(Events(s), s.argNames);
      var k :| 0 <= k < |Events(s)| && Events(s)[k] == Claim(n);
      assert !Process(Events(s), s.argNames).1;
      ProcessGrows(Events(s), s.argNames);
      assert IsClaimed(t, n);
    case DeclareAttr(d) => ClaimedGrows(s, t, n);
    case DeclareInput(io) => ClaimedGrows(s, t, n);
    case DeclareOutput(io) => ClaimedGrows(s, t, n);
  }

  lemma ClaimedGrows(s: CompState, t: CompState, n: string)
    requires IsClaimed(s, n) && s.attrs <= t.attrs && s.inputs <= t.inputs && s.outputs <= t.outputs
    ensures IsClaimed(t, n)
  {
    if i :| 0 <= i < |s.attrs| && s.attrs[i].name == n {
      assert t.attrs[i].name == n;
    } else if i :| 0 <= i < |s.inputs| && s.inputs[i].name == n {
      assert t.inputs[i].name == n;
    } else {
      var i :| 0 <= i < |s.outputs| && s.outputs[i].name == n;
      assert t.outputs[i].name == n;
    }
  }

  /******* Over every sequence of declarations and calls *******/

  lemma {:induction false} FailureNamesClaim(events: seq<Event>, names: set<string>) returns (n: string)
    requires !Process(events, names).1
    ensures Claim(n) in events && n in Process(events, names).0
    decreases |events|
  {
    if events[0].Claim? && events[0].name in names {
      n := events[0].name;
    } else {
      n := FailureNamesClaim(events[1..], names + {events[0].name});
    }
  }

  lemma {:induction false} InputEventIsName(inputs: seq<IoDef>, n: string)
    requires Claim(n) in InputEvents(inputs)
    ensures exists i :: 0 <= i < |inputs| && inputs[i].name == n
  {
    var last := |inputs| - 1;
    if Claim(n) in InputEvents(inputs[..last]) {
      InputEventIsName(inputs[..last], n);
      var i :| 0 <= i < last && inputs[..last][i].name == n;
      assert inputs[i].name == n;
    } else {
      assert Claim(n) !in ColumnEvents(inputs[last]);
      assert inputs[last].name == n;
    }
  }

  lemma EventIsClaimed(s: CompState, n: string)
    requires Claim(n) in Events(s)
    ensures IsClaimed(s, n)
  {
    if Claim(n) in AttrEvents(s.attrs) {
      var i :| 0 <= i < |s.attrs| && AttrEvents(s.attrs)[i] == Claim(n);
      assert s.attrs[i].name == n;
    } else if Claim(n) in InputEvents(s.inputs) {
      InputEventIsName(s.inputs, n);
    } else {
      var i :| 0 <= i < |s.outputs| && OutputEvents(s.outputs)[i] == Claim(n);
      assert s.outputs[i].name == n;
    }
  }

  /** A call that raises leaves the component stuck. */
  lemma FailedCallSticks(s: CompState, domain: string, name: string, version: string)
    requires Define(s, domain, name, version).definition.None?
    ensures Stuck(Define(s, domain, name, version))
  {
    var t := Define(s, domain, name, version);
    var n := FailureNamesClaim(Events(s), s.argNames);
    EventIsClaimed(s, n);
    ClaimedGrows(s, t, n);
  }

  ghost predicate DistinctSeq(names: seq<string>) {
    forall i, j :: 0 <= i < j < |names| ==> names[i] != names[j]
  }

  function IoNames(ios: seq<IoDef>): (r: seq<string>)
    ensures |r| == |ios|
  {
    seq(|ios|, i requires 0 <= i < |ios| => ios[i].name)
  }

  function AllNames(d: ComponentDef): seq<string> {
    seq(|d.attrs|, i requires 0 <= i < |d.attrs| => d.attrs[i].name) + IoNames(d.inputs) + IoNames(d.outputs)
  }

  /** The names in the order they are claimed. */
  function Claims(events: seq<Event>): seq<string> {
    if events == [] then []
    else if events[0].Claim? then [events[0].name] + Claims(events[1..])
    else Claims(events[1..])
  }

  lemma {:induction false} ClaimsConcat(xs: seq<Event>, ys: seq<Event>)
    ensures Claims(xs + ys) == Claims(xs) + Claims(ys)
  {
    if xs == [] {
      assert xs + ys == ys;
    } else {
      assert (xs + ys)[1..] == xs[1..] + ys;
      ClaimsConcat(xs[1..], ys);
    }
  }

  lemma {:induction false} ClaimsOfClaims(events: seq<Event>, names: seq<string>)
    requires |events| == |names| && forall i :: 0 <= i < |events| ==> events[i] == Claim(names[i])
    ensures Claims(events) == names
  {
    if events != [] { ClaimsOfClaims(events[1..], names[1..]); }
  }

  lemma {:induction false} ClaimsOfTakes(events: seq<Event>)
    requires forall i :: 0 <= i < |events| ==> events[i].Take?
    ensures Claims(events) == []
  {
    if events != [] { ClaimsOfTakes(events[1..]); }
  }

  lemma {:induction false} ClaimsOfInputs(inputs: seq<IoDef>)
    ensures Claims(InputEvents(inputs)) == IoNames(inputs)
  {
    if inputs != [] {
      var n := |inputs| - 1;
      var io := inputs[n];
      ClaimsOfInputs(inputs[..n]);
      ClaimsOfTakes(ColumnEvents(io));
      ClaimsOfClaims([Claim(io.name)], [io.name]);
      ClaimsConcat(InputEvents(inputs[..n]), [Claim(io.name)]);
      ClaimsConcat(InputEvents(inputs[..n]) + [Claim(io.name)], ColumnEvents(io));
      assert IoNames(inputs) == IoNames(inputs[..n]) + [io.name];
    }
  }

  lemma ClaimsOfState(s: CompState, d: ComponentDef)
    requires d.attrs == s.attrs && d.inputs == s.inputs && d.outputs == s.outputs
    ensures Claims(Events(s)) == AllNames(d)
  {
    ClaimsOfClaims(AttrEvents(s.attrs), seq(|d.attrs|, i requires 0 <= i < |d.attrs| => d.attrs[i].name));
    ClaimsOfInputs(s.inputs);
    ClaimsOfClaims(OutputEvents(s.outputs), IoNames(s.outputs));
    ClaimsConcat(AttrEvents(s.attrs), InputEvents(s.inputs));
    ClaimsConcat(AttrEvents(s.attrs) + InputEvents(s.inputs), OutputEvents(s.outputs));
  }

  lemma {:induction false} SuccessDistinct(events: seq<Event>, names: set<string>)
    requires Process(events, names).1
    ensures DistinctSeq(Claims(events)) && forall i :: 0 <= i < |Claims(events)| ==> Claims(events)[i] !in names
    decreases |events|
  {
    if events != [] { SuccessDistinct(events[1..], names + {events[0].name}); }
  }

  /** What holds between any two calls. */
  ghost predicate Sound(s: CompState) {
    && (s.definition.Some? ==> DistinctSeq(AllNames(s.definition.value)))
    && (s.definition.None? ==> s.argNames == {} || Stuck(s))
  }

  lemma SoundStep(s: CompState, op: Op, domain: string, name: string, version: string)
    requires Sound(s)
    ensures Sound(StepOp(s, op, domain, name, version))
    ensures s.definition.Some? ==> StepOp(s, op, domain, name, version).definition == s.definition
  {
    if s.definition.None? {
      if Stuck(s) {
        StuckStep(s, op, domain, name, version);
      } else if op.CallDefinition? {
        var t := Define(s, domain, name, version);
        if t.definition.None? {
          FailedCallSticks(s, domain, name, version);
        } else {
          ClaimsOfState(s, t.definition.value);
          SuccessDistinct(Events(s), s.argNames);
        }
      }
    }
  }

  lemma {:induction false} SoundRun(s: CompState, ops: seq<Op>, domain: string, name: string, version: string)
    requires Sound(s)
    ensures var t := RunOps(s, ops, domain, name, version);
            && Sound(t)
            && (s.definition.Some? ==> t.definition == s.definition)
            && (Stuck(s) ==> Stuck(t))
    decreases |ops|
  {
    if ops != [] {
      SoundStep(s, ops[0], domain, name, version);
      if Stuck(s) { StuckStep(s, ops[0], domain, name, version); }
      SoundRun(StepOp(s, ops[0], domain, name, version), ops[1..], domain, name, version);
    }
  }

  lemma {:induction false} RunOpsConcat(s: CompState, xs: seq<Op>, ys: seq<Op>,
                           domain: string, name: string, version: string)
    ensures RunOps(s, xs + ys, domain, name, version) ==
            RunOps(RunOps(s, xs, domain, name, version), ys, domain, name, version)
    decreases |xs|
  {
    if xs == [] {
      assert xs + ys == ys;
    } else {
      assert (xs + ys)[1..] == xs[1..] + ys;
      RunOpsConcat(StepOp(s, xs[0], domain, name, version), xs[1..], ys, domain, name, version);
    }
  }

  /** A returned definition has pairwise distinct names and never changes; after a call that raised,
      no later call succeeds, whatever is declared in between. */
  lemma DefinitionIsFinal(ops: seq<Op>, more: seq<Op>, domain: string, name: string, version: string)
    ensures var before := RunOps(NEW_COMPONENT, ops, domain, name, version);
            var t := Define(before, domain, name, version);
            var u := RunOps(NEW_COMPONENT, ops + [CallDefinition] + more, domain, name, version);
            && u.definition == t.definition
            && (t.definition.Some? ==> DistinctSeq(AllNames(t.definition.value)))
  {
    var before := RunOps(NEW_COMPONENT, ops, domain, name, version);
    var t := Define(before, domain, name, version);
    SoundRun(NEW_COMPONENT, ops, domain, name, version);
    SoundStep(before, CallDefinition, domain, name, version);
    if t.definition.None? { FailedCallSticks(before, domain, name, version); }
    SoundRun(t, more, domain, name, version);
    RunOpsConcat(NEW_COMPONENT, ops, [CallDefinition] + more, domain, name, version);
    assert ops + [CallDefinition] + more == ops + ([CallDefinition] + more);
    assert ([CallDefinition] + more)[1..] == more;
  }
}
