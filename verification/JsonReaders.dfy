/** What the C++ side finds, by field name, in the documents the Python classes write. */
module JsonReaders {
  import opened Octets
  import opened JsonModel
  import opened JsonRoundTrip
  import opened AttestationPolicy
  import opened TdxBinding

  /** The text under a key, as a message field that was not set reads. */
  function TextAt(members: seq<Member>, key: Key): string {
    var i := Find(members, key);
    if i < |members| && members[i].value.JStr? then members[i].value.s else ""
  }

  function MembersOf(j: Json): seq<Member> { if j.JObj? then j.members else [] }

  function ValueAt(members: seq<Member>, key: Key): Json {
    var i := Find(members, key);
    if i < |members| then members[i].value else JNull
  }

  function TextOf(v: Value): string { if v.Str? then v.s else "" }

  /** Field `k` of an instance, in the order of the declarations. */
  function At(v: Value, k: nat): Value { if v.Data? && k < |v.fields| then v.fields[k] else Nothing }

  /** The members are what an instance of the class is written as. */
  ghost predicate Written(c: Class, v: Value, m: seq<Member>) { Typed(c, v) && Filter(v) == JObj(m) }

  /** Field `k` of a class arrives under its name, or not at all when it is None. */
  lemma FieldArrives(c: Class, v: Value, m: seq<Member>, k: nat, key: Key)
    requires Written(c, v, m) && k < |Schema(c)| && Schema(c)[k].key == key
    ensures ValueAt(m, key) == Filter(At(v, k))
    ensures TypedField(Schema(c)[k].kind, At(v, k)) && TextAt(m, key) == TextOf(At(v, k))
  {
    SchemaKeysDistinct(c);
    assert TypedFields(Schema(c), v.fields);
    assert TypedField(Schema(c)[k].kind, v.fields[k]);
    FindFiltered(Schema(c), v.fields, k);
    NotRaw(Schema(c)[k].kind, v.fields[k]);
    TextOfFilter(At(v, k));
  }

  lemma NotRaw(kind: Kind, v: Value)
    requires TypedField(kind, v)
    ensures !v.Raw?
  {
    match kind
    case OptionalObject(c) => assert v.Nothing? || Typed(c, v);
    case _ =>
  }

  lemma TextOfFilter(v: Value)
    requires !v.Raw?
    ensures TextOf(v) == if Filter(v).JStr? then Filter(v).s else ""
  {}

  /******* Attributes of a rule *******/

  function ReadAttributes(m: seq<Member>): Attributes {
    Attributes(
      TextAt(m, "str_tee_platform"), TextAt(m, "hex_platform_hw_version"), TextAt(m, "hex_platform_sw_version"),
      TextAt(m, "hex_secure_flags"), TextAt(m, "hex_platform_measurement"), TextAt(m, "hex_boot_measurement"),
      TextAt(m, "hex_ta_measurement"), TextAt(m, "hex_ta_dyn_measurement"), TextAt(m, "hex_signer"),
      TextAt(m, "hex_prod_id"), TextAt(m, "str_min_isvsvn"), TextAt(m, "bool_debug_disabled"),
      TextAt(m, "hex_user_data"), TextAt(m, "hex_hash_or_pem_pubkey"), TextAt(m, "hex_nonce"))
  }

  /** The fields of the Python class in the order of their declaration, without the four no rule compares. */
  function AttributesOf(v: Value): Attributes {
    Attributes(
      TextOf(At(v, 0)), TextOf(At(v, 1)), TextOf(At(v, 2)), TextOf(At(v, 3)), TextOf(At(v, 4)), TextOf(At(v, 5)),
      TextOf(At(v, 8)), TextOf(At(v, 9)), TextOf(At(v, 10)), TextOf(At(v, 11)), TextOf(At(v, 12)), TextOf(At(v, 13)),
      TextOf(At(v, 14)), TextOf(At(v, 15)), TextOf(At(v, 16)))
  }

  lemma VersionsArrive(v: Value, m: seq<Member>)
    requires Written(Attribute, v, m)
    ensures TextAt(m, "str_tee_platform") == TextOf(At(v, 0))
    ensures TextAt(m, "hex_platform_hw_version") == TextOf(At(v, 1))
    ensures TextAt(m, "hex_platform_sw_version") == TextOf(At(v, 2))
  {
    FieldArrives(Attribute, v, m, 0, "str_tee_platform");
    FieldArrives(Attribute, v, m, 1, "hex_platform_hw_version");
    FieldArrives(Attribute, v, m, 2, "hex_platform_sw_version");
  }

  lemma FlagsArrive(v: Value, m: seq<Member>)
    requires Written(Attribute, v, m)
    ensures TextAt(m, "hex_secure_flags") == TextOf(At(v, 3))
    ensures TextAt(m, "hex_platform_measurement") == TextOf(At(v, 4))
    ensures TextAt(m, "hex_boot_measurement") == TextOf(At(v, 5))
  {
    FieldArrives(Attribute, v, m, 3, "hex_secure_flags");
    FieldArrives(Attribute, v, m, 4, "hex_platform_measurement");
    FieldArrives(Attribute, v, m, 5, "hex_boot_measurement");
  }

  lemma ProgramArrives(v: Value, m: seq<Member>)
    requires Written(Attribute, v, m)
    ensures TextAt(m, "hex_ta_measurement") == TextOf(At(v, 8))
    ensures TextAt(m, "hex_ta_dyn_measurement") == TextOf(At(v, 9))
    ensures TextAt(m, "hex_signer") == TextOf(At(v, 10))
  {
    FieldArrives(Attribute, v, m, 8, "hex_ta_measurement");
    FieldArrives(Attribute, v, m, 9, "hex_ta_dyn_measurement");
    FieldArrives(Attribute, v, m, 10, "hex_signer");
  }

  lemma LimitsArrive(v: Value, m: seq<Member>)
    requires Written(Attribute, v, m)
    ensures TextAt(m, "hex_prod_id") == TextOf(At(v, 11))
    ensures TextAt(m, "str_min_isvsvn") == TextOf(At(v, 12))
    ensures TextAt(m, "bool_debug_disabled") == TextOf(At(v, 13))
  {
    FieldArrives(Attribute, v, m, 11, "hex_prod_id");
    FieldArrives(Attribute, v, m, 12, "str_min_isvsvn");
    FieldArrives(Attribute, v, m, 13, "bool_debug_disabled");
  }

  lemma BindingArrives(v: Value, m: seq<Member>)
    requires Written(Attribute, v, m)
    ensures TextAt(m, "hex_user_data") == TextOf(At(v, 14))
    ensures TextAt(m, "hex_hash_or_pem_pubkey") == TextOf(At(v, 15))
    ensures TextAt(m, "hex_nonce") == TextOf(At(v, 16))
  {
    FieldArrives(Attribute, v, m, 14, "hex_user_data");
    FieldArrives(Attribute, v, m, 15, "hex_hash_or_pem_pubkey");
    FieldArrives(Attribute, v, m, 16, "hex_nonce");
  }

  /** Every field of a rule written in Python arrives in the field of the verifier that it is meant for. */
  lemma AttributesArrive(v: Value, m: seq<Member>)
    requires Written(Attribute, v, m)
    ensures ReadAttributes(m) == AttributesOf(v)
  {
    VersionsArrive(v, m);
    FlagsArrive(v, m);
    ProgramArrives(v, m);
    LimitsArrive(v, m);
    BindingArrives(v, m);
  }

  /******* Policies and parameters *******/

  function ReadRules(m: seq<Member>): seq<Attributes> {
    var j := ValueAt(m, "main_attributes");
    if !j.JArr? then []
    else seq(|j.items|, i requires 0 <= i < |j.items| => ReadAttributes(MembersOf(j.items[i])))
  }

  lemma {:induction false} FilterItemsIs(items: seq<Value>)
    requires forall i :: 0 <= i < |items| ==> !items[i].Nothing?
    ensures |FilterItems(items)| == |items|
    ensures forall i :: 0 <= i < |items| ==> FilterItems(items)[i] == Filter(items[i])
  {
    if items != [] { FilterItemsIs(items[..|items| - 1]); }
  }

  /** The rules of a policy written in Python are the rules the verifier tries, in the same order. */
  lemma RulesArrive(v: Value, m: seq<Member>)
    requires Written(Policy, v, m) && At(v, 1).List?
    requires forall i :: 0 <= i < |At(v, 1).items| ==> !At(v, 1).items[i].Nothing?
    ensures var items, rules := At(v, 1).items, ReadRules(m);
            |rules| == |items| && forall i :: 0 <= i < |items| ==> rules[i] == AttributesOf(items[i])
  {
    var items := At(v, 1).items;
    FieldArrives(Policy, v, m, 1, "main_attributes");
    assert TypedItems(Attribute, items);
    FilterItemsIs(items);
    forall i | 0 <= i < |items| ensures ReadAttributes(MembersOf(Filter(items[i]))) == AttributesOf(items[i]) {
      AttributesArrive(items[i], MembersOf(Filter(items[i])));
    }
  }

  function ReadGenParams(m: seq<Member>): GenParams {
    var inner := MembersOf(ValueAt(m, "report_params"));
    GenParams(TextAt(m, "report_hex_nonce"), TextAt(inner, "hex_user_data"), TextAt(inner, "pem_public_key"))
  }

  /** The generation parameters written in Python are those the generator reads. */
  lemma GenParamsArrive(v: Value, m: seq<Member>)
    requires Written(GenerationParams, v, m)
    ensures var inner := At(v, 3);
            ReadGenParams(m) == GenParams(TextOf(At(v, 2)), TextOf(At(inner, 1)), TextOf(At(inner, 3)))
  {
    var inner := At(v, 3);
    FieldArrives(GenerationParams, v, m, 2, "report_hex_nonce");
    FieldArrives(GenerationParams, v, m, 3, "report_params");
    if !inner.Nothing? {
      FieldArrives(ReportParams, inner, MembersOf(Filter(inner)), 1, "hex_user_data");
      FieldArrives(ReportParams, inner, MembersOf(Filter(inner)), 3, "pem_public_key");
    }
  }

  /** The other parameters by their names. */
  lemma ParamsArrive(c: Class, v: Value, m: seq<Member>)
    requires Written(c, v, m)
    ensures c == GenerationParams ==>
              TextAt(m, "tee_identity") == TextOf(At(v, 0)) && TextAt(m, "report_type") == TextOf(At(v, 1))
    ensures c == ReportParams ==>
              && TextAt(m, "str_report_identity") == TextOf(At(v, 0))
              && TextAt(m, "json_nested_reports") == TextOf(At(v, 2)) && TextAt(m, "hex_spid") == TextOf(At(v, 4))
  {
    if c == GenerationParams {
      FieldArrives(GenerationParams, v, m, 0, "tee_identity");
      FieldArrives(GenerationParams, v, m, 1, "report_type");
    } else if c == ReportParams {
      FieldArrives(ReportParams, v, m, 0, "str_report_identity");
      FieldArrives(ReportParams, v, m, 2, "json_nested_reports");
      FieldArrives(ReportParams, v, m, 4, "hex_spid");
    }
  }

  /** The attributes no rule compares. */
  lemma UncomparedArrive(v: Value, m: seq<Member>)
    requires Written(Attribute, v, m)
    ensures TextAt(m, "str_tee_name") == TextOf(At(v, 6)) && TextAt(m, "str_tee_identity") == TextOf(At(v, 7))
    ensures TextAt(m, "hex_spid") == TextOf(At(v, 17)) && TextAt(m, "str_verified_time") == TextOf(At(v, 18))
  {
    FieldArrives(Attribute, v, m, 6, "str_tee_name");
    FieldArrives(Attribute, v, m, 7, "str_tee_identity");
    FieldArrives(Attribute, v, m, 17, "hex_spid");
    FieldArrives(Attribute, v, m, 18, "str_verified_time");
  }

  /** A report by its names. */
  lemma ReportArrives(v: Value, m: seq<Member>)
    requires Written(Report, v, m)
    ensures TextAt(m, "str_report_version") == TextOf(At(v, 0)) && TextAt(m, "str_report_type") == TextOf(At(v, 1))
    ensures TextAt(m, "str_tee_platform") == TextOf(At(v, 2)) && TextAt(m, "json_report") == TextOf(At(v, 3))
    ensures TextAt(m, "json_nested_reports") == TextOf(At(v, 4))
  {
    FieldArrives(Report, v, m, 0, "str_report_version");
    FieldArrives(Report, v, m, 1, "str_report_type");
    FieldArrives(Report, v, m, 2, "str_tee_platform");
    FieldArrives(Report, v, m, 3, "json_report");
    FieldArrives(Report, v, m, 4, "json_nested_reports");
  }

  /** Groups of nested policies by theirs. */
  lemma NestedArrive(c: Class, v: Value, m: seq<Member>)
    requires Written(c, v, m)
    ensures c == Policy ==>
              TextAt(m, "pem_public_key") == TextOf(At(v, 0)) && ValueAt(m, "nested_policies") == Filter(At(v, 2))
    ensures c == NestedPolicies ==>
              && TextAt(m, "str_group_name") == TextOf(At(v, 0)) && TextAt(m, "str_group_id") == TextOf(At(v, 1))
              && ValueAt(m, "policies") == Filter(At(v, 2))
    ensures c == NestedPolicy ==> ValueAt(m, "sub_attributes") == Filter(At(v, 0))
  {
    match c {
      case Policy =>
        FieldArrives(Policy, v, m, 0, "pem_public_key");
        FieldArrives(Policy, v, m, 2, "nested_policies");
      case NestedPolicies =>
        FieldArrives(NestedPolicies, v, m, 0, "str_group_name");
        FieldArrives(NestedPolicies, v, m, 1, "str_group_id");
        FieldArrives(NestedPolicies, v, m, 2, "policies");
      case NestedPolicy => FieldArrives(NestedPolicy, v, m, 0, "sub_attributes");
      case _ =>
    }
  }

  /******* Required fields, unknown keys and nulls *******/

  /** No parameter of a report and no attribute of a rule has to be set. */
  lemma AllOptional(c: Class, v: Value)
    requires Typed(c, v) && (c == ReportParams || c == Attribute)
    ensures Clean(v)
  {
    assert TypedFields(Schema(c), v.fields);
  }

  /** Which fields must be set for a value to survive: the first two of the generation parameters and
      the first four of a report. */
  lemma RequiredFields(c: Class, v: Value)
    requires Typed(c, v)
    ensures c == GenerationParams ==> (Clean(v) <==> At(v, 0).Str? && At(v, 1).Str?)
    ensures c == Report ==> (Clean(v) <==> At(v, 0).Str? && At(v, 1).Str? && At(v, 2).Str? && At(v, 3).Str?)
  {
    assert TypedFields(Schema(c), v.fields);
    forall i | 0 <= i < |v.fields| ensures TypedField(Schema(c)[i].kind, v.fields[i]) {}
    if c == GenerationParams {
      var s, f := Schema(c), v.fields;
      if !f[3].Nothing? { AllOptional(ReportParams, f[3]); }
      assert Clean(v) <==> CleanField(s[0].kind, f[0]) && CleanField(s[1].kind, f[1]) &&
                           CleanField(s[2].kind, f[2]) && CleanField(s[3].kind, f[3]);
    }
    if c == Report {
      var s, f := Schema(c), v.fields;
      assert Clean(v) <==> CleanField(s[0].kind, f[0]) && CleanField(s[1].kind, f[1]) && CleanField(s[2].kind, f[2]) &&
                           CleanField(s[3].kind, f[3]) && CleanField(s[4].kind, f[4]);
    }
  }

  /** A document with a key the class does not know is refused. */
  lemma UnknownKeyRefused(c: Class, j: Json, k: nat)
    requires j.JObj? && k < |j.members|
    requires forall i :: 0 <= i < |Schema(c)| ==> Schema(c)[i].key != j.members[k].key
    ensures FromJson(c, j) == None
  {}

  /** A null under a known key reads as None. */
  lemma NullReadsNone(f: Field, j: Json)
    requires j.JObj? && Find(j.members, f.key) < |j.members| && ValueAt(j.members, f.key) == JNull
    ensures FromField(f, j) == Some(Nothing)
  {}
}
