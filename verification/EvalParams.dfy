/** EvalParamReader: resolves the parameters of a node against the definition of its component. */
module EvalParams {
  const MIN_I64: int := -0x8000_0000_0000_0000
  const MAX_I64: int := 0x7fff_ffff_ffff_ffff

  type I64 = x: int | MIN_I64 <= x <= MAX_I64

  /** An attribute message: one slot per type, and a flag that says it was left open. */
  datatype Attribute = Attribute(
    f: real, i64: I64, s: string, b: bool,
    fs: seq<real>, i64s: seq<I64>, ss: seq<string>, bs: seq<bool>,
    isNa: bool)

  const EMPTY_ATTRIBUTE: Attribute := Attribute(0.0, 0, "", false, [], [], [], [], false)

  datatype AttrType = Unspecified | Float | Int | Str | Bool | Floats | Ints | Strs | Bools | Structural

  datatype Bound = Unbounded | Bound(value: Attribute, inclusive: bool)

  datatype AttrDef = AttrDef(
    prefixes: seq<string>, name: string, typ: AttrType, isOptional: bool, default: Attribute,
    allowed: Attribute, lower: Bound, upper: Bound, listMin: I64, listMax: I64)

  datatype ColumnDef = ColumnDef(name: string, minCount: I64, maxCount: I64, extraAttrs: nat)

  datatype IoDef = IoDef(name: string, types: seq<string>, columns: seq<ColumnDef>)

  datatype ComponentDef = ComponentDef(
    domain: string, name: string, version: string,
    attrs: seq<AttrDef>, inputs: seq<IoDef>, outputs: seq<IoDef>)

  datatype DistData = DistData(typ: string, uri: string)

  datatype NodeParam = NodeParam(
    domain: string, name: string, version: string,
    attrPaths: seq<string>, attrs: seq<Attribute>, inputs: seq<DistData>, outputUris: seq<string>)

  datatype Val =
    | VF(f: real) | VI(i: int) | VS(s: string) | VB(b: bool)
    | VFs(fs: seq<real>) | VIs(i64s: seq<int>) | VSs(ss: seq<string>) | VBs(bs: seq<bool>)

  /** What the attribute table holds: a message as it came, or the value read out of it. */
  datatype Entry = Message(attr: Attribute) | Value(v: Val)

  /** `math.isclose`, left open. */
  type Closeness = (real, real) -> bool

  /******* Checks on one attribute *******/

  predicate AllowedOk(close: Closeness, v: Attribute, d: AttrDef) {
    match d.typ
    case Float => d.allowed.fs == [] || exists i :: 0 <= i < |d.allowed.fs| && close(d.allowed.fs[i], v.f)
    case Int => d.allowed.i64s == [] || v.i64 in d.allowed.i64s
    case Str => d.allowed.ss == [] || v.s in d.allowed.ss
    case _ => true
  }

  predicate LowerOk(close: Closeness, v: Attribute, d: AttrDef) {
    d.lower.Unbounded? ||
    match d.typ
    case Float => v.f > d.lower.value.f || (d.lower.inclusive && close(v.f, d.lower.value.f))
    case Int => v.i64 > d.lower.value.i64 || (d.lower.inclusive && v.i64 == d.lower.value.i64)
    case _ => true
  }

  predicate UpperOk(close: Closeness, v: Attribute, d: AttrDef) {
    d.upper.Unbounded? ||
    match d.typ
    case Float => v.f < d.upper.value.f || (d.upper.inclusive && close(v.f, d.upper.value.f))
    case Int => v.i64 < d.upper.value.i64 || (d.upper.inclusive && v.i64 == d.upper.value.i64)
    case _ => true
  }

  /** A count of zero means no limit. */
  predicate ColumnCountOk(v: Attribute, d: ColumnDef) {
    && (d.minCount != 0 ==> |v.ss| >= d.minCount)
    && (d.maxCount != 0 ==> |v.ss| <= d.maxCount)
  }

  predicate Supported(t: AttrType) { !t.Unspecified? && !t.Structural? }

  function GetValue(v: Attribute, t: AttrType): Val
    requires Supported(t)
  {
    match t
    case Float => VF(v.f)
    case Int => VI(v.i64)
    case Str => VS(v.s)
    case Bool => VB(v.b)
    case Floats => VFs(v.fs)
    case Ints => VIs(v.i64s)
    case Strs => VSs(v.ss)
    case Bools => VBs(v.bs)
  }

  /******* Slots: everything that gets an entry in the attribute table *******/

  function Join(parts: seq<string>, last: string): string {
    if parts == [] then last else parts[0] + "/" + Join(parts[1..], last)
  }

  datatype Slot = AttrSlot(d: AttrDef) | ColumnSlot(input: string, col: ColumnDef) {
    function Name(): string {
      if AttrSlot? then Join(d.prefixes, d.name) else Join(["input", input], col.name)
    }
  }

  type Given = map<string, Attribute>

  /** The message a slot is read from: the node's own, or the declared default, or an empty one. */
  function Source(given: Given, slot: Slot): Attribute {
    if slot.Name() in given then given[slot.Name()]
    else if slot.AttrSlot? then slot.d.default
    else EMPTY_ATTRIBUTE
  }

  predicate SlotOk(close: Closeness, given: Given, slot: Slot) {
    var v := Source(given, slot);
    match slot
    case AttrSlot(d) =>
      && Supported(d.typ)
      && (slot.Name() in given || d.isOptional)
      && AllowedOk(close, v, d) && LowerOk(close, v, d) && UpperOk(close, v, d)
    case ColumnSlot(_, col) => col.extraAttrs == 0 && ColumnCountOk(v, col)
  }

  function SlotValue(given: Given, slot: Slot): Val
    requires slot.AttrSlot? ==> Supported(slot.d.typ)
  {
    GetValue(Source(given, slot), if slot.AttrSlot? then slot.d.typ else Strs)
  }

  function AttrSlots(attrs: seq<AttrDef>): (r: seq<Slot>)
    ensures |r| == |attrs|
  {
    seq(|attrs|, i requires 0 <= i < |attrs| => AttrSlot(attrs[i]))
  }

  function ColumnSlots(io: IoDef): (r: seq<Slot>)
    ensures |r| == |io.columns|
  {
    seq(|io.columns|, i requires 0 <= i < |io.columns| => ColumnSlot(io.name, io.columns[i]))
  }

  function InputSlots(inputs: seq<IoDef>): seq<Slot> {
    if inputs == [] then [] else InputSlots(inputs[..|inputs| - 1]) + ColumnSlots(inputs[|inputs| - 1])
  }

  /** In the order in which they are resolved. */
  function Slots(def: ComponentDef): seq<Slot> { AttrSlots(def.attrs) + InputSlots(def.inputs) }

  ghost predicate DistinctNames(slots: seq<Slot>) {
    forall i, j :: 0 <= i < j < |slots| ==> slots[i].Name() != slots[j].Name()
  }

  /** Everything resolved so far is well-formed and nothing was resolved twice. */
  ghost predicate SlotsOk(close: Closeness, given: Given, slots: seq<Slot>) {
    DistinctNames(slots) && forall i :: 0 <= i < |slots| ==> SlotOk(close, given, slots[i])
  }

  /** One entry a slot, with its value, and the node's other messages as they came. */
  ghost predicate TableOf(table: map<string, Entry>, close: Closeness, given: Given, slots: seq<Slot>) {
    && SlotsOk(close, given, slots)
    && (forall i :: 0 <= i < |slots| ==>
          slots[i].Name() in table && table[slots[i].Name()] == Value(SlotValue(given, slots[i])))
    && (forall p :: p in table ==> p in given || IsSlotName(slots, p))
    && (forall p :: p in given ==> p in table && (!IsSlotName(slots, p) ==> table[p] == Message(given[p])))
  }

  ghost predicate IsSlotName(slots: seq<Slot>, p: string) {
    exists i :: 0 <= i < |slots| && slots[i].Name() == p
  }

  lemma SlotsOkSnoc(close: Closeness, given: Given, slots: seq<Slot>, slot: Slot)
    ensures SlotsOk(close, given, slots + [slot]) <==>
            SlotsOk(close, given, slots) && !IsSlotName(slots, slot.Name()) && SlotOk(close, given, slot)
  {
    var all := slots + [slot];
    if SlotsOk(close, given, all) {
      assert all[|slots|] == slot;
      forall i | 0 <= i < |slots| ensures SlotOk(close, given, slots[i]) && slots[i].Name() != slot.Name() {
        assert all[i] == slots[i];
      }
      forall i, j | 0 <= i < j < |slots| ensures slots[i].Name() != slots[j].Name() {
        assert all[i] == slots[i] && all[j] == slots[j];
      }
    }
  }

  lemma SlotsOkPrefix(close: Closeness, given: Given, slots: seq<Slot>, more: seq<Slot>)
    requires SlotsOk(close, given, slots + more)
    ensures SlotsOk(close, given, slots)
  {
    var all := slots + more;
    forall i | 0 <= i < |slots| ensures SlotOk(close, given, slots[i]) { assert all[i] == slots[i]; }
    forall i, j | 0 <= i < j < |slots| ensures slots[i].Name() != slots[j].Name() {
      assert all[i] == slots[i] && all[j] == slots[j];
    }
  }
}
