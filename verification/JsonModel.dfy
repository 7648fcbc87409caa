/** The JSON form of the attestation dataclasses: `_filter_none_values` writes a tree without
    nulls, and the `from_json` constructors read it back. */
module JsonModel {
  import opened Octets

  datatype Class = GenerationParams | ReportParams | Report | Attribute | Policy | NestedPolicies | NestedPolicy

  type Key = string

  datatype Kind = RequiredStr | OptionalStr | OptionalObject(cls: Class) | OptionalList(cls: Class)

  datatype Field = Field(key: Key, kind: Kind)

  /** The declarations of the seven dataclasses, field by field. */
  function Schema(c: Class): seq<Field> {
    match c
    case GenerationParams =>
      [Field("tee_identity", RequiredStr), Field("report_type", RequiredStr),
       Field("report_hex_nonce", OptionalStr), Field("report_params", OptionalObject(ReportParams))]
    case ReportParams =>
      [Field("str_report_identity", OptionalStr), Field("hex_user_data", OptionalStr),
       Field("json_nested_reports", OptionalStr), Field("pem_public_key", OptionalStr),
       Field("hex_spid", OptionalStr)]
    case Report =>
      [Field("str_report_version", RequiredStr), Field("str_report_type", RequiredStr),
       Field("str_tee_platform", RequiredStr), Field("json_report", RequiredStr),
       Field("json_nested_reports", OptionalStr)]
    case Attribute =>
      [Field("str_tee_platform", OptionalStr), Field("hex_platform_hw_version", OptionalStr),
       Field("hex_platform_sw_version", OptionalStr), Field("hex_secure_flags", OptionalStr),
       Field("hex_platform_measurement", OptionalStr), Field("hex_boot_measurement", OptionalStr),
       Field("str_tee_name", OptionalStr), Field("str_tee_identity", OptionalStr),
       Field("hex_ta_measurement", OptionalStr), Field("hex_ta_dyn_measurement", OptionalStr),
       Field("hex_signer", OptionalStr), Field("hex_prod_id", OptionalStr), Field("str_min_isvsvn", OptionalStr),
       Field("bool_debug_disabled", OptionalStr), Field("hex_user_data", OptionalStr),
       Field("hex_hash_or_pem_pubkey", OptionalStr), Field("hex_nonce", OptionalStr),
       Field("hex_spid", OptionalStr), Field("str_verified_time", OptionalStr)]
    case Policy =>
      [Field("pem_public_key", OptionalStr), Field("main_attributes", OptionalList(Attribute)),
       Field("nested_policies", OptionalObject(NestedPolicies))]
    case NestedPolicies =>
      [Field("str_group_name", OptionalStr), Field("str_group_id", OptionalStr),
       Field("policies", OptionalList(NestedPolicy))]
    case NestedPolicy =>
      [Field("sub_attributes", OptionalList(Attribute))]
  }

  ghost predicate DistinctKeys(schema: seq<Field>) {
    forall i, j :: 0 <= i < j < |schema| ==> schema[i].key != schema[j].key
  }

  /** Where an attribute's field name stands in its class; nearly all differ in length. */
  function Place(key: Key): int {
    match |key|
    case 8 => 17
    case 9 => 16
    case 10 => 10
    case 11 => 11
    case 12 => 6
    case 13 => 14
    case 14 => 12
    case 16 => if key[8] == 'p' then 0 else if key[8] == 'r' then 3 else 7
    case 17 => 18
    case 18 => 8
    case 19 => 13
    case 20 => 5
    case 22 => if key[8] == 'y' then 9 else 15
    case 23 => if key[13] == 'h' then 1 else 2
    case 24 => 4
    case _ => -1
  }

  lemma FirstPlaces(i: nat)
    requires i < 10
    ensures Place(Schema(Attribute)[i].key) == i
  {
    assert Place("str_tee_platform") == 0;
    assert Place("hex_platform_hw_version") == 1;
    assert Place("hex_platform_sw_version") == 2;
    assert Place("hex_secure_flags") == 3;
    assert Place("hex_platform_measurement") == 4;
    assert Place("hex_boot_measurement") == 5;
    assert Place("str_tee_name") == 6;
    assert Place("str_tee_identity") == 7;
    assert Place("hex_ta_measurement") == 8;
    assert Place("hex_ta_dyn_measurement") == 9;
  }

  lemma LastPlaces(i: nat)
    requires 10 <= i < |Schema(Attribute)|
    ensures Place(Schema(Attribute)[i].key) == i
  {
    assert Place("hex_signer") == 10;
    assert Place("hex_prod_id") == 11;
    assert Place("str_min_isvsvn") == 12;
    assert Place("bool_debug_disabled") == 13;
    assert Place("hex_user_data") == 14;
    assert Place("hex_hash_or_pem_pubkey") == 15;
    assert Place("hex_nonce") == 16;
    assert Place("hex_spid") == 17;
    assert Place("str_verified_time") == 18;
  }

  lemma SchemaKeysDistinct(c: Class)
    ensures DistinctKeys(Schema(c))
  {
    var schema := Schema(c);
    if c == Attribute {
      forall i | 0 <= i < |schema| ensures Place(schema[i].key) == i {
        if i < 10 { FirstPlaces(i); } else { LastPlaces(i); }
      }
    }
  }

  /** A dataclass instance, a list, a string or None; Raw is whatever else a document puts into a
      string field, which the constructors keep as it is. */
  datatype Value = Nothing | Str(s: string) | List(items: seq<Value>) |
    Data(cls: Class, fields: seq<Value>) | Raw(json: Json)

  datatype Json = JNull | JStr(s: string) | JArr(items: seq<Json>) | JObj(members: seq<Member>)

  datatype Member = Member(key: Key, value: Json)

  /******* Writing *******/

  function Filter(v: Value): Json
    decreases v, 0
  {
    match v
    case Nothing => JNull
    case Str(s) => JStr(s)
    case List(items) => JArr(FilterItems(items))
    case Data(c, fields) => JObj(FilterFields(Schema(c), fields))
    case Raw(j) => j
  }

  function FilterItems(items: seq<Value>): (r: seq<Json>)
    ensures |r| <= |items|
    decreases items, 1
  {
    if items == [] then []
    else
      var n := |items| - 1;
      FilterItems(items[..n]) + (if items[n].Nothing? then [] else [Filter(items[n])])
  }

  function FilterFields(schema: seq<Field>, fields: seq<Value>): seq<Member>
    decreases fields, 1
  {
    if fields == [] || |schema| < |fields| then []
    else
      var n := |fields| - 1;
      FilterFields(schema, fields[..n]) +
      (if fields[n].Nothing? then [] else [Member(schema[n].key, Filter(fields[n]))])
  }

  method FilterNoneValues(v: Value) returns (j: Json)
    ensures j == Filter(v)
    decreases v
  {
    match v
    case Data(c, fields) =>
      var schema := Schema(c);
      if |schema| < |fields| { return JObj([]); }
      var result: seq<Member> := [];
      assert fields[..0] == [];
      for i := 0 to |fields|
        invariant result == FilterFields(schema, fields[..i])
      {
        assert fields[..i + 1][..i] == fields[..i];
        if !fields[i].Nothing? {
          var filtered := FilterNoneValues(fields[i]);
          result := result + [Member(schema[i].key, filtered)];
        }
      }
      assert fields[..|fields|] == fields;
      return JObj(result);
    case List(items) =>
      var result: seq<Json> := [];
      assert items[..0] == [];
      for i := 0 to |items|
        invariant result == FilterItems(items[..i])
      {
        assert items[..i + 1][..i] == items[..i];
        if !items[i].Nothing? {
          var filtered := FilterNoneValues(items[i]);
          result := result + [filtered];
        }
      }
      assert items[..|items|] == items;
      return JArr(result);
    case Nothing => return JNull;
    case Str(s) => return JStr(s);
    case Raw(r) => return r;
  }

  /******* Reading *******/

  /** The position of a key in a document, its length when absent. */
  function Find(members: seq<Member>, key: Key): (i: nat)
    ensures i <= |members|
    ensures i < |members| ==> members[i].key == key
    ensures forall k :: 0 <= k < i ==> members[k].key != key
  {
    if members == [] then 0
    else if members[0].key == key then 0
    else 1 + Find(members[1..], key)
  }

  predicate KnownKeys(schema: seq<Field>, members: seq<Member>) {
    forall i :: 0 <= i < |members| ==> exists k :: 0 <= k < |schema| && schema[k].key == members[i].key
  }

  /** `from_json` of class `c`; None is the TypeError of a bad keyword or argument. */
  function FromJson(c: Class, j: Json): Option<Value>
    decreases j, 2, 0
  {
    if !j.JObj? || !KnownKeys(Schema(c), j.members) then None
    else
      match FromFields(Schema(c), j)
      case None => None
      case Some(fields) => Some(Data(c, fields))
  }

  function FromFields(schema: seq<Field>, j: Json): (r: Option<seq<Value>>)
    requires j.JObj?
    ensures r.Some? ==> |r.value| == |schema|
    decreases j, 1, |schema|
  {
    if schema == [] then Some([])
    else
      var n := |schema| - 1;
      match FromFields(schema[..n], j)
      case None => None
      case Some(front) =>
        match FromField(schema[n], j)
        case None => None
        case Some(v) => Some(front + [v])
  }

  function FromField(f: Field, j: Json): Option<Value>
    requires j.JObj?
    decreases j, 0, 0
  {
    var i := Find(j.members, f.key);
    if i == |j.members| then (if f.kind.RequiredStr? then None else Some(Nothing))
    else
      var value := j.members[i].value;
      assert value < j.members[i];
      match f.kind
      case OptionalObject(c) => if value.JNull? then Some(Nothing) else FromJson(c, value)
      case OptionalList(c) =>
        if value.JNull? then Some(Nothing)
        else if !value.JArr? then None
        else
          (match FromItems(c, value.items)
           case None => None
           case Some(items) => Some(List(items)))
      case _ => Some(match value case JNull => Nothing case JStr(s) => Str(s) case _ => Raw(value))
  }

  function FromItems(c: Class, items: seq<Json>): (r: Option<seq<Value>>)
    ensures r.Some? ==> |r.value| == |items|
    decreases items, 3, 0
  {
    if items == [] then Some([])
    else
      var n := |items| - 1;
      match FromItems(c, items[..n])
      case None => None
      case Some(front) =>
        match FromJson(c, items[n])
        case None => None
        case Some(v) => Some(front + [v])
  }
}
