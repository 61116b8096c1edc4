/** Repair and normalisation of assistant payloads
    (src/control_plane/assistant_payload_repair.rs, assistant_actions.rs). */
module PayloadRepair {
  import opened Options
  import opened Json
  import opened Text
  import opened Numerals

  predicate IsNumericField(key: string) {
    key in {"bandwidth_limit_kbps", "call_count", "code", "delay_ms", "latency_ms", "limit", "offset", "port", "status"}
  }

  predicate IsBooleanField(key: string) {
    key in {"enabled", "include_bodies", "merge", "raw", "regex"}
  }

  predicate IsArrayField(key: string) {
    key in {"actions", "events", "host_focus", "hosts", "methods", "responses", "status_buckets"}
  }

  // ----- the three converters -----

  function NumericString(v: Value): Option<Value> {
    if !v.Str? then None
    else
      var raw := Trim(v.s);
      if raw == "" || !AllDigits(raw) then None
      else if ParseNat(raw) < U64_LIMIT then Some(Number(UInt(ParseNat(raw))))
      else None
  }

  function BooleanString(v: Value): Option<Value> {
    if !v.Str? then None
    else
      var raw := Lower(Trim(v.s));
      if raw == "true" then Some(Bool(true))
      else if raw == "false" then Some(Bool(false))
      else None
  }

  /** The non-empty trimmed pieces, as JSON strings. */
  function TrimmedItems(parts: seq<string>): (r: seq<Value>)
    ensures forall v :: v in r ==> v.Str?
  {
    if parts == [] then []
    else (if Trim(parts[0]) == "" then [] else [Str(Trim(parts[0]))]) + TrimmedItems(parts[1..])
  }

  function SingletonAsArray(v: Value): Option<Value> {
    match v
    case Obj(_) => Some(Arr([v]))
    case Str(raw) =>
      var items := TrimmedItems(Split(raw, ','));
      if items == [] then None else Some(Arr(items))
    case _ => None
  }

  // ----- termination: the wrapped value is larger but no deeper than its parent -----

  function Height(v: Value): nat
    decreases v
  {
    match v
    case Arr(items) => 1 + HeightItems(items)
    case Obj(fields) => 3 + HeightFields(fields)
    case _ => 0
  }

  function HeightItems(items: seq<Value>): (h: nat)
    ensures forall v :: v in items ==> Height(v) <= h
    decreases items
  {
    if items == [] then 0
    else
      assert items == [items[0]] + items[1..];
      Max(Height(items[0]), HeightItems(items[1..]))
  }

  function HeightFields(fields: seq<Field>): (h: nat)
    ensures forall f :: f in fields ==> Height(f.value) <= h
    decreases fields
  {
    if fields == [] then 0
    else
      assert fields == [fields[0]] + fields[1..];
      Max(Height(fields[0].value), HeightFields(fields[1..]))
  }

  function Max(a: nat, b: nat): nat { if a < b then b else a }

  lemma {:induction false} StringsAreShallow(items: seq<Value>)
    requires forall v :: v in items ==> v.Str?
    ensures HeightItems(items) == 0
  {
    if items != [] { StringsAreShallow(items[1..]); }
  }

  lemma WrappedHeight(v: Value)
    requires SingletonAsArray(v).Some?
    ensures Height(SingletonAsArray(v).value) <= 1 + Height(v)
  {
    if v.Str? { StringsAreShallow(SingletonAsArray(v).value.items); }
    else { assert HeightItems([v]) == Height(v); }
  }

  // ----- the repair -----

  function Repair(v: Value): Value
    decreases Height(v), 2, 0
  {
    match v
    case Obj(fields) => Obj(RepairFields(fields))
    case Arr(items) => Arr(RepairItems(items))
    case _ => v
  }

  function RepairItems(items: seq<Value>): (r: seq<Value>)
    ensures |r| == |items|
    decreases HeightItems(items), 3, |items|
  {
    if items == [] then [] else [Repair(items[0])] + RepairItems(items[1..])
  }

  function RepairFields(fields: seq<Field>): (r: seq<Field>)
    ensures |r| == |fields|
    decreases HeightFields(fields) + 2, 1, |fields|
  {
    if fields == [] then []
    else [Field(fields[0].key, RepairField(fields[0].key, fields[0].value))] + RepairFields(fields[1..])
  }

  /** The value of field `key`: wrapped and repaired, converted, or repaired. */
  function RepairField(key: string, v: Value): Value
    decreases Height(v) + 2, 0, 0
  {
    if IsArrayField(key) && SingletonAsArray(v).Some? then
      WrappedHeight(v);
      Repair(SingletonAsArray(v).value)
    else if IsNumericField(key) && NumericString(v).Some? then NumericString(v).value
    else if IsBooleanField(key) && BooleanString(v).Some? then BooleanString(v).value
    else Repair(v)
  }

  /** `repair_assistant_payload`: one pass over the entries, in place. */
  method RepairAssistantPayload(value: Value) returns (r: Value)
    ensures r == Repair(value)
    decreases Height(value), 1
  {
    match value {
      case Obj(fields) =>
        var out := fields;
        for i := 0 to |fields|
          invariant |out| == |fields|
          invariant forall k :: i <= k < |fields| ==> out[k] == fields[k]
          invariant forall k :: 0 <= k < i ==> out[k] == RepairedField(fields[k])
        {
          assert fields[i] in fields;
          var v := RepairOneField(fields[i].key, fields[i].value);
          out := out[i := Field(fields[i].key, v)];
        }
        RepairFieldsPointwise(fields, out);
        r := Obj(out);
      case Arr(items) =>
        var out := items;
        for i := 0 to |items|
          invariant |out| == |items|
          invariant forall k :: i <= k < |items| ==> out[k] == items[k]
          invariant forall k :: 0 <= k < i ==> out[k] == Repair(items[k])
        {
          assert items[i] in items;
          var item := RepairAssistantPayload(items[i]);
          out := out[i := item];
        }
        RepairItemsPointwise(items, out);
        r := Arr(out);
      case _ => r := value;
    }
  }

  /** The body of the loop over the entries of an object. */
  method RepairOneField(key: string, v: Value) returns (r: Value)
    ensures r == RepairField(key, v)
    decreases Height(v) + 2, 0
  {
    if IsArrayField(key) && SingletonAsArray(v).Some? {
      WrappedHeight(v);
      r := RepairAssistantPayload(SingletonAsArray(v).value);
    } else if IsNumericField(key) && NumericString(v).Some? {
      r := NumericString(v).value;
    } else if IsBooleanField(key) && BooleanString(v).Some? {
      r := BooleanString(v).value;
    } else {
      r := RepairAssistantPayload(v);
    }
  }

  function RepairedField(f: Field): Field { Field(f.key, RepairField(f.key, f.value)) }

  lemma {:induction false} RepairFieldsPointwise(fields: seq<Field>, out: seq<Field>)
    requires |out| == |fields| && forall k :: 0 <= k < |fields| ==> out[k] == RepairedField(fields[k])
    ensures out == RepairFields(fields)
  {
    if fields != [] {
      RepairFieldsPointwise(fields[1..], out[1..]);
      assert out == [out[0]] + out[1..];
    }
  }

  lemma {:induction false} RepairItemsPointwise(items: seq<Value>, out: seq<Value>)
    requires |out| == |items| && forall k :: 0 <= k < |items| ==> out[k] == Repair(items[k])
    ensures out == RepairItems(items)
  {
    if items != [] {
      RepairItemsPointwise(items[1..], out[1..]);
      assert out == [out[0]] + out[1..];
    }
  }

  // ----- normal form -----

  /** Nothing at any depth is left that a converter would still change. */
  predicate Normal(v: Value)
    decreases v
  {
    match v
    case Obj(fields) => NormalFields(fields)
    case Arr(items) => NormalItems(items)
    case _ => true
  }

  predicate NormalItems(items: seq<Value>)
    decreases items
  {
    items == [] || (Normal(items[0]) && NormalItems(items[1..]))
  }

  predicate NormalFields(fields: seq<Field>)
    decreases fields
  {
    fields == [] || (Settled(fields[0].key, fields[0].value) && Normal(fields[0].value) && NormalFields(fields[1..]))
  }

  predicate Settled(key: string, v: Value) {
    && (IsArrayField(key) ==> SingletonAsArray(v).None?)
    && (IsNumericField(key) ==> NumericString(v).None?)
    && (IsBooleanField(key) ==> BooleanString(v).None?)
  }

  /** One pass reaches the normal form, even where it wraps and converts. */
  lemma {:induction false} RepairIsNormal(v: Value)
    ensures Normal(Repair(v))
    decreases Height(v), 2, 0
  {
    match v
    case Obj(fields) => RepairFieldsNormal(fields);
    case Arr(items) => RepairItemsNormal(items);
    case _ =>
  }

  lemma {:induction false} RepairItemsNormal(items: seq<Value>)
    ensures NormalItems(RepairItems(items))
    decreases HeightItems(items), 3, |items|
  {
    if items != [] {
      RepairIsNormal(items[0]);
      RepairItemsNormal(items[1..]);
    }
  }

  lemma {:induction false} RepairFieldsNormal(fields: seq<Field>)
    ensures NormalFields(RepairFields(fields))
    decreases HeightFields(fields) + 2, 1, |fields|
  {
    if fields != [] {
      RepairFieldNormal(fields[0].key, fields[0].value);
      RepairFieldsNormal(fields[1..]);
    }
  }

  lemma {:induction false} RepairFieldNormal(key: string, v: Value)
    ensures Settled(key, RepairField(key, v)) && Normal(RepairField(key, v))
    decreases Height(v) + 2, 0, 0
  {
    if IsArrayField(key) && SingletonAsArray(v).Some? {
      WrappedHeight(v);
      RepairIsNormal(SingletonAsArray(v).value);
    } else {
      RepairIsNormal(v);
    }
    RepairFieldSettled(key, v);
  }

  lemma RepairFieldSettled(key: string, v: Value)
    ensures Settled(key, RepairField(key, v))
  {
    if IsArrayField(key) && SingletonAsArray(v).Some? {
      RepairKeepsKind(SingletonAsArray(v).value);
    } else if IsNumericField(key) && NumericString(v).Some? {
      OthersAreSettled(key, NumericString(v).value);
    } else if IsBooleanField(key) && BooleanString(v).Some? {
      OthersAreSettled(key, BooleanString(v).value);
    } else if v.Obj? {
      assert !IsArrayField(key);
      RepairKeepsKind(v);
    } else {
      RepairKeepsKind(v);
    }
  }

  lemma OthersAreSettled(key: string, v: Value)
    requires !v.Str? && !v.Obj?
    ensures Settled(key, v)
  {}

  /** Texts are left alone, arrays stay arrays, and other values turn into neither. */
  lemma RepairKeepsKind(v: Value)
    ensures v.Str? ==> Repair(v) == v
    ensures !v.Str? ==> NumericString(Repair(v)).None? && BooleanString(Repair(v)).None?
    ensures !v.Str? && !v.Obj? ==> SingletonAsArray(Repair(v)).None?
  {}

  /** A value in normal form is left alone. */
  lemma {:induction false} NormalIsFixed(v: Value)
    requires Normal(v)
    ensures Repair(v) == v
    decreases v
  {
    match v
    case Obj(fields) => NormalFieldsFixed(fields);
    case Arr(items) => NormalItemsFixed(items);
    case _ =>
  }

  lemma {:induction false} NormalItemsFixed(items: seq<Value>)
    requires NormalItems(items)
    ensures RepairItems(items) == items
    decreases items
  {
    if items != [] {
      NormalIsFixed(items[0]);
      NormalItemsFixed(items[1..]);
    }
  }

  lemma {:induction false} NormalFieldsFixed(fields: seq<Field>)
    requires NormalFields(fields)
    ensures RepairFields(fields) == fields
    decreases fields
  {
    if fields != [] {
      NormalIsFixed(fields[0].value);
      NormalFieldsFixed(fields[1..]);
    }
  }

  /** The fixed points of the repair are exactly the normal forms. */
  lemma RepairedExactlyWhenNormal(v: Value)
    ensures Repair(v) == v <==> Normal(v)
  {
    RepairIsNormal(v);
    if Normal(v) { NormalIsFixed(v); }
  }

  /** A repaired value is left alone by a second repair. */
  lemma RepairIdempotent(v: Value)
    ensures Repair(Repair(v)) == Repair(v)
  {
    RepairIsNormal(v);
    NormalIsFixed(Repair(v));
  }

  // ----- normalisation -----

  const COLLECTION_BASES := [
    "/admin/rule-sets", "/admin/map-remote-rules", "/admin/map-local-rules", "/admin/access-rules",
    "/admin/breakpoints", "/admin/mock/rules", "/admin/scripts", "/admin/webhooks"]

  /** The item id that follows `prefix` and a slash. */
  function PathId(endpoint: string, prefix: string): Option<string> {
    if prefix + "/" < endpoint then Some(endpoint[|prefix| + 1..]) else None
  }

  function EnsureField(fields: seq<Field>, key: string, v: Value): seq<Field> {
    if HasKey(fields, key) then fields else fields + [Field(key, v)]
  }

  function RuleName(summary: string): string {
    if Trim(summary) == "" then "Assistant generated rule" else Trim(summary)
  }

  function EnsureRuleName(fields: seq<Field>, summary: string): seq<Field> {
    if HasKey(fields, "name") || HasKey(fields, "bp_type") then fields
    else fields + [Field("name", Str(RuleName(summary)))]
  }

  function EnsureLocation(fields: seq<Field>): seq<Field> {
    if !HasKey(fields, "location") && !HasKey(fields, "url") && !HasKey(fields, "code")
    then fields + [Field("location", Obj([]))]
    else fields
  }

  /** The four `ensure_*` calls on one object. */
  function Complete(fields: seq<Field>, id: string, summary: string): seq<Field> {
    EnsureLocation(EnsureRuleName(EnsureField(EnsureField(fields, "id", Str(id)), "enabled", Bool(true)), summary))
  }

  /** The id that the first matching collection gives the payload. */
  function AssignedId(verb: string, endpoint: string, bases: seq<string>): Option<string> {
    if bases == [] then None
    else if endpoint == bases[0] && verb == "POST" then Some("")
    else if PathId(endpoint, bases[0]).Some? && verb == "PUT" then PathId(endpoint, bases[0])
    else AssignedId(verb, endpoint, bases[1..])
  }

  function Normalize(verb: string, endpoint: string, payload: Value, summary: string): Result<Value> {
    if verb == "DELETE" || payload.Null? then Ok(payload)
    else
      var repaired := Repair(payload);
      if !repaired.Obj? then Err("assistant action payload must be a JSON object")
      else match AssignedId(verb, endpoint, COLLECTION_BASES)
        case None => Ok(repaired)
        case Some(id) => Ok(Obj(Complete(repaired.fields, id, summary)))
  }

  lemma {:induction false} RepairFieldsAt(fields: seq<Field>, k: nat)
    requires k < |fields|
    ensures RepairFields(fields)[k] == RepairedField(fields[k])
  {
    if k > 0 { RepairFieldsAt(fields[1..], k - 1); }
  }

  lemma RepairFieldsAppend(a: seq<Field>, b: seq<Field>)
    ensures RepairFields(a + b) == RepairFields(a) + RepairFields(b)
  {
    var out := RepairFields(a) + RepairFields(b);
    forall k | 0 <= k < |a + b| ensures out[k] == RepairedField((a + b)[k]) {
      if k < |a| { RepairFieldsAt(a, k); } else { RepairFieldsAt(b, k - |a|); }
    }
    RepairFieldsPointwise(a + b, out);
  }

  /** A default the normaliser adds is not something the repair changes. */
  predicate Inert(f: Field) { RepairField(f.key, f.value) == f.value }

  /** No converter applies to a key outside the three lists. */
  lemma OrdinaryKey(key: string, v: Value)
    requires !IsArrayField(key) && !IsNumericField(key) && !IsBooleanField(key)
    requires v.Str? || v == Obj([])
    ensures Inert(Field(key, v))
  {}

  lemma FirstLetters(key: string)
    requires key != "" && key[0] !in {'a', 'b', 'c', 'd', 'e', 'h', 'i', 'l', 'm', 'o', 'p', 'r', 's'}
    ensures !IsArrayField(key) && !IsNumericField(key) && !IsBooleanField(key)
  {}

  lemma IdIsOrdinary(id: string)
    ensures Inert(Field("id", Str(id)))
  {
    assert |"id"| == 2;
    OrdinaryKey("id", Str(id));
  }

  lemma LocationIsOrdinary()
    ensures Inert(Field("location", Obj([])))
  {
    assert |"location"| == 8 && "location"[0] == 'l' && "delay_ms"[0] == 'd';
    OrdinaryKey("location", Obj([]));
  }

  lemma NameIsOrdinary(name: string)
    ensures Inert(Field("name", Str(name)))
  {
    FirstLetters("name");
    OrdinaryKey("name", Str(name));
  }

  lemma EnabledIsInert()
    ensures Inert(Field("enabled", Bool(true)))
  {
    assert |"enabled"| == 7 && "enabled"[1] == 'n';
  }

  lemma DefaultsAreInert(id: string, summary: string)
    ensures Inert(Field("id", Str(id))) && Inert(Field("enabled", Bool(true)))
    ensures Inert(Field("name", Str(RuleName(summary)))) && Inert(Field("location", Obj([])))
  {
    IdIsOrdinary(id);
    LocationIsOrdinary();
    NameIsOrdinary(RuleName(summary));
    EnabledIsInert();
  }

  ghost predicate KeepsKeys(before: seq<Field>, after: seq<Field>) {
    forall key :: HasKey(before, key) ==> HasKey(after, key)
  }

  /** Appending an inert field keeps an object repaired and loses no key. */
  lemma AppendInert(fields: seq<Field>, f: Field)
    requires RepairFields(fields) == fields && Inert(f)
    ensures RepairFields(fields + [f]) == fields + [f]
    ensures KeepsKeys(fields, fields + [f]) && HasKey(fields + [f], f.key)
  {
    RepairFieldsAppend(fields, [f]);
    assert (fields + [f])[|fields|].key == f.key;
    forall key | HasKey(fields, key) ensures HasKey(fields + [f], key) {
      var i :| 0 <= i < |fields| && fields[i].key == key;
      assert (fields + [f])[i].key == key;
    }
  }

  lemma EnsureFieldStable(fields: seq<Field>, key: string, v: Value)
    requires RepairFields(fields) == fields && Inert(Field(key, v))
    ensures var r := EnsureField(fields, key, v);
            RepairFields(r) == r && KeepsKeys(fields, r) && HasKey(r, key)
  {
    AppendInert(fields, Field(key, v));
  }

  lemma EnsureRuleNameStable(fields: seq<Field>, summary: string)
    requires RepairFields(fields) == fields
    ensures var r := EnsureRuleName(fields, summary);
            RepairFields(r) == r && KeepsKeys(fields, r) && (HasKey(r, "name") || HasKey(r, "bp_type"))
  {
    DefaultsAreInert("", summary);
    AppendInert(fields, Field("name", Str(RuleName(summary))));
  }

  lemma EnsureLocationStable(fields: seq<Field>)
    requires RepairFields(fields) == fields
    ensures var r := EnsureLocation(fields);
            RepairFields(r) == r && KeepsKeys(fields, r) &&
            (HasKey(r, "location") || HasKey(r, "url") || HasKey(r, "code"))
  {
    DefaultsAreInert("", "");
    AppendInert(fields, Field("location", Obj([])));
  }

  /** Every default is in place. */
  predicate Completed(fields: seq<Field>) {
    && HasKey(fields, "id") && HasKey(fields, "enabled")
    && (HasKey(fields, "name") || HasKey(fields, "bp_type"))
    && (HasKey(fields, "location") || HasKey(fields, "url") || HasKey(fields, "code"))
  }

  lemma CompletedIsFixed(fields: seq<Field>, id: string, summary: string)
    requires Completed(fields)
    ensures Complete(fields, id, summary) == fields
  {}

  lemma CompleteRepaired(fields: seq<Field>, id: string, summary: string)
    requires RepairFields(fields) == fields
    ensures var done := Complete(fields, id, summary); RepairFields(done) == done && Completed(done)
  {
    DefaultsAreInert(id, summary);
    var a := EnsureField(fields, "id", Str(id));
    EnsureFieldStable(fields, "id", Str(id));
    var b := EnsureField(a, "enabled", Bool(true));
    EnsureFieldStable(a, "enabled", Bool(true));
    var c := EnsureRuleName(b, summary);
    EnsureRuleNameStable(b, summary);
    EnsureLocationStable(c);
  }

  /** Completing a repaired object keeps it repaired, and doing it again adds nothing. */
  lemma CompleteIsStable(fields: seq<Field>, id: string, summary: string)
    requires RepairFields(fields) == fields
    ensures var done := Complete(fields, id, summary);
            RepairFields(done) == done && Complete(done, id, summary) == done
  {
    CompleteRepaired(fields, id, summary);
    CompletedIsFixed(Complete(fields, id, summary), id, summary);
  }

  /** What was normalised at proposal is unchanged by the normalisation at execution. */
  lemma NormalizeIdempotent(verb: string, endpoint: string, payload: Value, summary: string)
    ensures Normalize(verb, endpoint, payload, summary).Ok? ==>
              var once := Normalize(verb, endpoint, payload, summary).value;
              Normalize(verb, endpoint, once, summary) == Ok(once)
  {
    RepairIdempotent(payload);
    var repaired := Repair(payload);
    if repaired.Obj? && AssignedId(verb, endpoint, COLLECTION_BASES).Some? {
      CompleteIsStable(repaired.fields, AssignedId(verb, endpoint, COLLECTION_BASES).value, summary);
    }
  }
}
