/** Reading back what was written: which dataclass values survive, and that no null is written. */
module JsonRoundTrip {
  import opened Octets
  import opened JsonModel

  /** A value of the declared types, where any slot may hold None. */
  ghost predicate Typed(c: Class, v: Value)
    decreases v, 1
  {
    v.Data? && v.cls == c && TypedFields(Schema(c), v.fields)
  }

  ghost predicate TypedFields(schema: seq<Field>, fields: seq<Value>)
    decreases fields, 3
  {
    |fields| == |schema| && forall i :: 0 <= i < |fields| ==> TypedField(schema[i].kind, fields[i])
  }

  ghost predicate TypedField(kind: Kind, v: Value)
    decreases v, 2
  {
    v.Nothing? ||
    match kind
    case OptionalObject(c) => Typed(c, v)
    case OptionalList(c) => v.List? && TypedItems(c, v.items)
    case _ => v.Str?
  }

  ghost predicate TypedItems(c: Class, items: seq<Value>)
    decreases items, 3
  {
    forall i :: 0 <= i < |items| ==> items[i].Nothing? || Typed(c, items[i])
  }

  /** Required fields are set and lists hold no None, at every level. */
  ghost predicate Clean(v: Value)
    decreases v, 1
  {
    v.Data? ==> CleanFields(Schema(v.cls), v.fields)
  }

  ghost predicate CleanFields(schema: seq<Field>, fields: seq<Value>)
    decreases fields, 3
  {
    |fields| <= |schema| && forall i :: 0 <= i < |fields| ==> CleanField(schema[i].kind, fields[i])
  }

  ghost predicate CleanField(kind: Kind, v: Value)
    decreases v, 2
  {
    && (kind.RequiredStr? ==> !v.Nothing?)
    && (kind.OptionalObject? ==> Clean(v))
    && (kind.OptionalList? && v.List? ==> CleanItems(v.items))
  }

  ghost predicate CleanItems(items: seq<Value>)
    decreases items, 3
  {
    forall i :: 0 <= i < |items| ==> !items[i].Nothing? && Clean(items[i])
  }

  /******* Looking a field up in the written object *******/

  lemma {:induction false} FindConcat(xs: seq<Member>, ys: seq<Member>, key: Key)
    ensures Find(xs + ys, key) == if Find(xs, key) < |xs| then Find(xs, key) else |xs| + Find(ys, key)
  {
    if xs == [] {
      assert xs + ys == ys;
    } else {
      assert (xs + ys)[1..] == xs[1..] + ys;
      FindConcat(xs[1..], ys, key);
    }
  }

  lemma FindOne(m: Member, key: Key)
    ensures Find([m], key) == if m.key == key then 0 else 1
  {}

  lemma SameKeyIff(schema: seq<Field>, k: nat, n: nat)
    requires DistinctKeys(schema) && k < |schema| && n < |schema|
    ensures schema[k].key == schema[n].key <==> k == n
  {}

  ghost function FieldAt(fields: seq<Value>, k: nat): Value { if k < |fields| then fields[k] else Nothing }

  /** A key is found exactly when its field is set, with the field's own JSON. */
  lemma {:induction false} FindFiltered(schema: seq<Field>, fields: seq<Value>, k: nat)
    requires DistinctKeys(schema) && |fields| <= |schema| && k < |schema|
    ensures FoundIn(FilterFields(schema, fields), schema[k].key, FieldAt(fields, k))
    decreases |fields|
  {
    if fields != [] {
      var n := |fields| - 1;
      var front := fields[..n];
      FindFiltered(schema, front, k);
      SameKeyIff(schema, k, n);
      FoundAfter(FilterFields(schema, front), schema[n].key, fields[n], schema[k].key, FieldAt(front, k));
    }
  }

  /** The object has the value's JSON under the key, or no such key when the value is None. */
  ghost predicate FoundIn(members: seq<Member>, key: Key, v: Value) {
    var i := Find(members, key);
    if v.Nothing? then i == |members| else i < |members| && members[i].value == Filter(v)
  }

  lemma FoundAfter(front: seq<Member>, lastKey: Key, last: Value, key: Key, v: Value)
    requires FoundIn(front, key, v)
    requires key == lastKey ==> v.Nothing?
    ensures FoundIn(front + (if last.Nothing? then [] else [Member(lastKey, Filter(last))]), key,
                    if key == lastKey then last else v)
  {
    if last.Nothing? {
      assert front + [] == front;
    } else {
      FindConcat(front, [Member(lastKey, Filter(last))], key);
      FindOne(Member(lastKey, Filter(last)), key);
    }
  }

  lemma {:induction false} FilteredKeysKnown(schema: seq<Field>, fields: seq<Value>)
    requires |fields| <= |schema|
    ensures KnownKeys(schema, FilterFields(schema, fields))
    decreases |fields|
  {
    if fields != [] {
      var n := |fields| - 1;
      FilteredKeysKnown(schema, fields[..n]);
      var members := FilterFields(schema, fields);
      var front := FilterFields(schema, fields[..n]);
      forall i | 0 <= i < |members| ensures exists k :: 0 <= k < |schema| && schema[k].key == members[i].key {
        if i < |front| { assert members[i] == front[i]; } else { assert members[i].key == schema[n].key; }
      }
    }
  }

  /******* The round trip *******/

  lemma SnocEqual<T>(xs: seq<T>, x: T, ys: seq<T>, y: T)
    ensures xs + [x] == ys + [y] <==> xs == ys && x == y
  {
    if xs + [x] == ys + [y] {
      assert xs == (xs + [x])[..|xs|] && ys == (ys + [y])[..|ys|];
      assert x == (xs + [x])[|xs|] && y == (ys + [y])[|ys|];
    }
  }

  lemma FromItemsSnoc(c: Class, js: seq<Json>, j: Json, front: seq<Value>, last: Value)
    ensures FromItems(c, js + [j]) == Some(front + [last]) <==>
            FromItems(c, js) == Some(front) && FromJson(c, j) == Some(last)
  {
    assert (js + [j])[..|js|] == js;
    if FromItems(c, js).Some? && FromJson(c, j).Some? {
      SnocEqual(FromItems(c, js).value, FromJson(c, j).value, front, last);
    }
  }

  lemma FromFieldsSnoc(schema: seq<Field>, f: Field, j: Json, front: seq<Value>, last: Value)
    requires j.JObj?
    ensures FromFields(schema + [f], j) == Some(front + [last]) <==>
            FromFields(schema, j) == Some(front) && FromField(f, j) == Some(last)
  {
    assert (schema + [f])[..|schema|] == schema;
    if FromFields(schema, j).Some? && FromField(f, j).Some? {
      SnocEqual(FromFields(schema, j).value, FromField(f, j).value, front, last);
    }
  }

  lemma {:induction false} FieldRoundTrip(f: Field, j: Json, v: Value)
    requires j.JObj? && TypedField(f.kind, v) && FoundIn(j.members, f.key, v)
    ensures FromField(f, j) == Some(v) <==> CleanField(f.kind, v)
    decreases v, 1
  {
    if !v.Nothing? {
      match f.kind
      case OptionalObject(c) => RoundTrip(c, v);
      case OptionalList(c) => ItemsRoundTrip(c, v.items);
      case _ =>
    }
  }

  lemma CleanItemsSnoc(front: seq<Value>, last: Value)
    ensures CleanItems(front + [last]) <==> CleanItems(front) && !last.Nothing? && Clean(last)
  {
    var items := front + [last];
    if CleanItems(items) {
      assert !items[|front|].Nothing? && Clean(items[|front|]);
      forall i | 0 <= i < |front| ensures !front[i].Nothing? && Clean(front[i]) { assert front[i] == items[i]; }
    }
  }

  lemma {:induction false} ItemsRoundTrip(c: Class, items: seq<Value>)
    requires TypedItems(c, items)
    ensures FromItems(c, FilterItems(items)) == Some(items) <==> CleanItems(items)
    decreases items, 1
  {
    if items != [] {
      var n := |items| - 1;
      var front, last := items[..n], items[n];
      ItemsRoundTrip(c, front);
      assert items == front + [last];
      CleanItemsSnoc(front, last);
      if last.Nothing? {
        assert |FilterItems(items)| <= n;
      } else {
        RoundTrip(c, last);
        FromItemsSnoc(c, FilterItems(front), Filter(last), front, last);
      }
    }
  }

  lemma {:induction false} FieldsRoundTrip(schema: seq<Field>, j: Json, fields: seq<Value>, k: nat)
    requires DistinctKeys(schema) && TypedFields(schema, fields) && k <= |schema|
    requires j == JObj(FilterFields(schema, fields))
    ensures FromFields(schema[..k], j) == Some(fields[..k]) <==> CleanFields(schema, fields[..k])
    decreases fields, 2, k
  {
    if k > 0 {
      var front, last := fields[..k - 1], fields[k - 1];
      FieldsRoundTrip(schema, j, fields, k - 1);
      FindFiltered(schema, fields, k - 1);
      FieldRoundTrip(schema[k - 1], j, last);
      assert schema[..k] == schema[..k - 1] + [schema[k - 1]];
      assert fields[..k] == front + [last];
      FromFieldsSnoc(schema[..k - 1], schema[k - 1], j, front, last);
      CleanFieldsSnoc(schema, front, last);
    }
  }

  lemma CleanFieldsSnoc(schema: seq<Field>, front: seq<Value>, last: Value)
    requires |front| < |schema|
    ensures CleanFields(schema, front + [last]) <==>
            CleanFields(schema, front) && CleanField(schema[|front|].kind, last)
  {
    var fields := front + [last];
    if CleanFields(schema, fields) {
      assert CleanField(schema[|front|].kind, fields[|front|]);
      forall i | 0 <= i < |front| ensures CleanField(schema[i].kind, front[i]) { assert front[i] == fields[i]; }
    }
  }

  /** `from_json(to_json(v)) == v` exactly for the values whose required fields are set and whose
      lists hold no None, through all levels of nesting. */
  lemma {:induction false} RoundTrip(c: Class, v: Value)
    requires Typed(c, v)
    ensures FromJson(c, Filter(v)) == Some(v) <==> Clean(v)
    decreases v, 0
  {
    var schema := Schema(c);
    SchemaKeysDistinct(c);
    FilteredKeysKnown(schema, v.fields);
    FieldsRoundTrip(schema, Filter(v), v.fields, |schema|);
    assert schema[..|schema|] == schema && v.fields[..|schema|] == v.fields;
  }

  /******* No null is written *******/

  ghost predicate NoNull(j: Json)
    decreases j, 0
  {
    match j
    case JNull => false
    case JStr(_) => true
    case JArr(items) => forall i :: 0 <= i < |items| ==> NoNull(items[i])
    case JObj(members) => forall i :: 0 <= i < |members| ==> NoNullMember(members[i])
  }

  ghost predicate NoNullMember(m: Member)
    decreases m, 1
  {
    NoNull(m.value)
  }

  /** No Raw document inside. */
  ghost predicate Native(v: Value)
    decreases v
  {
    match v
    case Raw(_) => false
    case List(items) => forall i :: 0 <= i < |items| ==> Native(items[i])
    case Data(_, fields) => forall i :: 0 <= i < |fields| ==> Native(fields[i])
    case _ => true
  }

  lemma {:induction false} WritesNoNull(v: Value)
    requires Native(v) && !v.Nothing?
    ensures NoNull(Filter(v))
    decreases v, 0
  {
    match v
    case List(items) => ItemsWriteNoNull(items);
    case Data(c, fields) => FieldsWriteNoNull(Schema(c), fields);
    case _ =>
  }

  lemma {:induction false} ItemsWriteNoNull(items: seq<Value>)
    requires forall i :: 0 <= i < |items| ==> Native(items[i])
    ensures forall i :: 0 <= i < |FilterItems(items)| ==> NoNull(FilterItems(items)[i])
    decreases items, 1
  {
    if items != [] {
      var n := |items| - 1;
      ItemsWriteNoNull(items[..n]);
      if !items[n].Nothing? { WritesNoNull(items[n]); }
    }
  }

  lemma {:induction false} FieldsWriteNoNull(schema: seq<Field>, fields: seq<Value>)
    requires forall i :: 0 <= i < |fields| ==> Native(fields[i])
    ensures forall i :: 0 <= i < |FilterFields(schema, fields)| ==> NoNullMember(FilterFields(schema, fields)[i])
    decreases fields, 1
  {
    if fields != [] {
      var n := |fields| - 1;
      FieldsWriteNoNull(schema, fields[..n]);
      if !fields[n].Nothing? { WritesNoNull(fields[n]); }
    }
  }
}
