/** What the repair and the normalisation of a payload make of it, said without their
    code (src/control_plane/assistant_payload_repair.rs, assistant_actions.rs). */
module RepairMeaning {
  import opened Options
  import opened Json
  import opened Text
  import opened Numerals
  import opened Selections
  import opened PayloadRepair

  // ----- what a text stands for -----

  /** `n` in decimal, with white space around it and zeros before it. */
  ghost predicate NumberText(s: string, n: nat) {
    n < U64_LIMIT && exists k: nat :: Pads(s, Zeros(k) + Decimal(n))
  }

  function Word(b: bool): string { if b then "true" else "false" }

  /** The word for `b` in any case, with white space around it. */
  ghost predicate BoolText(s: string, b: bool) {
    exists core :: Pads(s, core) && SameLetters(core, Word(b))
  }

  /** What is kept of one piece of a list: the text inside its white space, if any. */
  function Piece(part: string): Option<Value> { if Trim(part) == "" then None else Some(Str(Trim(part))) }

  /** The pieces between the commas that are not blank, and at least one of them. */
  ghost predicate ListText(s: string, items: seq<Value>) {
    && items != []
    && exists parts: seq<string> ::
         && parts != [] && Join(parts, ',') == s && (forall p :: p in parts ==> ',' !in p)
         && Selects(Piece, parts, items)
  }

  // ----- the converters -----

  lemma DigitsAreTrimmed(s: string)
    requires AllDigits(s)
    ensures Trimmed(s)
  {}

  /** A text becomes the number `n` exactly when it is `n` in decimal. */
  lemma NumberExactly(v: Value, n: nat)
    ensures NumericString(v) == Some(Number(UInt(n))) <==> v.Str? && NumberText(v.s, n)
  {
    if v.Str? {
      var raw := Trim(v.s);
      if NumericString(v) == Some(Number(UInt(n))) {
        ReadsExactly(raw, n);
        var k: nat :| raw == Zeros(k) + Decimal(n);
        TrimExactly(v.s, raw);
      }
      if NumberText(v.s, n) {
        var k: nat :| Pads(v.s, Zeros(k) + Decimal(n));
        var core := Zeros(k) + Decimal(n);
        ReadsExactly(core, n);
        DigitsAreTrimmed(core);
        TrimExactly(v.s, core);
      }
    }
  }

  lemma NumberOrNothing(v: Value)
    ensures NumericString(v).Some? <==> v.Str? && exists n: nat :: NumberText(v.s, n)
    ensures NumericString(v).Some? ==>
              exists n: nat :: NumericString(v) == Some(Number(UInt(n))) && NumberText(v.s, n)
  {
    if NumericString(v).Some? {
      NumberExactly(v, NumericString(v).value.num.n);
    }
    if v.Str? && exists n: nat :: NumberText(v.s, n) {
      var n: nat :| NumberText(v.s, n);
      NumberExactly(v, n);
    }
  }

  lemma WordsDiffer(core: string, b: bool)
    requires SameLetters(core, Word(b))
    ensures Trimmed(core) && Lower(core) == Word(b)
  {
    LowerExactly(core, Word(b));
    assert forall i :: 0 <= i < |core| ==> SameLetter(core[i], Word(b)[i]) && IsLower(Word(b)[i]);
  }

  /** A text becomes a truth value exactly when it is the word for it. */
  lemma BoolExactly(v: Value, b: bool)
    ensures BooleanString(v) == Some(Bool(b)) <==> v.Str? && BoolText(v.s, b)
  {
    if v.Str? {
      var raw := Trim(v.s);
      if BooleanString(v) == Some(Bool(b)) {
        LowerExactly(raw, Word(b));
        TrimExactly(v.s, raw);
      }
      if BoolText(v.s, b) {
        var core :| Pads(v.s, core) && SameLetters(core, Word(b));
        WordsDiffer(core, b);
        TrimExactly(v.s, core);
      }
    }
  }

  lemma BoolOrNothing(v: Value)
    ensures BooleanString(v).Some? <==> v.Str? && exists b :: BoolText(v.s, b)
    ensures BooleanString(v).Some? ==> exists b :: BooleanString(v) == Some(Bool(b)) && BoolText(v.s, b)
  {
    BoolExactly(v, true);
    BoolExactly(v, false);
    if v.Str? && exists b :: BoolText(v.s, b) {
      var b :| BoolText(v.s, b);
      BoolExactly(v, b);
    }
  }

  lemma {:induction false} PiecesSelected(parts: seq<string>)
    ensures Selects(Piece, parts, TrimmedItems(parts))
  {
    if parts == [] {
      SelectsNone(Piece);
    } else {
      PiecesSelected(parts[1..]);
      SelectsFront(Piece, parts[0], parts[1..], TrimmedItems(parts[1..]));
      assert [parts[0]] + parts[1..] == parts;
    }
  }

  /** A text becomes a list exactly when it has pieces, and these are its items. */
  lemma ListExactly(s: string, items: seq<Value>)
    ensures SingletonAsArray(Str(s)) == Some(Arr(items)) <==> ListText(s, items)
  {
    var pieces := Split(s, ',');
    PiecesSelected(pieces);
    SplitExactly(s, ',', pieces);
    if ListText(s, items) {
      var parts: seq<string> :| parts != [] && Join(parts, ',') == s && (forall p :: p in parts ==> ',' !in p)
                                && Selects(Piece, parts, items);
      SplitExactly(s, ',', parts);
      SelectsOne(Piece, parts, items, TrimmedItems(pieces));
    }
  }

  lemma ListOrNothing(s: string)
    ensures SingletonAsArray(Str(s)).Some? <==> exists items :: ListText(s, items)
    ensures SingletonAsArray(Str(s)).Some? ==>
              exists items :: SingletonAsArray(Str(s)) == Some(Arr(items)) && ListText(s, items)
  {
    if SingletonAsArray(Str(s)).Some? {
      ListExactly(s, SingletonAsArray(Str(s)).value.items);
    }
    if exists items :: ListText(s, items) {
      var items :| ListText(s, items);
      ListExactly(s, items);
    }
  }

  // ----- the repair -----

  /** `r` is `v` with every field converted, at every depth; keys, their order and the
      lengths of arrays are kept. */
  ghost predicate Becomes(v: Value, r: Value)
    decreases v, 0
  {
    match v
    case Obj(fields) =>
      && r.Obj? && |r.fields| == |fields|
      && forall i :: 0 <= i < |fields| ==>
           r.fields[i].key == fields[i].key && FieldBecomes(fields[i].key, fields[i].value, r.fields[i].value)
    case Arr(items) =>
      r.Arr? && |r.items| == |items| && forall i :: 0 <= i < |items| ==> Becomes(items[i], r.items[i])
    case _ => r == v
  }

  /** An object under an array key becomes its only item, a list its items, a number its
      value, a truth value the value; anything else is repaired in place. */
  ghost predicate FieldBecomes(key: string, v: Value, r: Value)
    decreases v, 1
  {
    if IsArrayField(key) && v.Obj? then r.Arr? && |r.items| == 1 && Becomes(v, r.items[0])
    else if IsArrayField(key) && v.Str? && exists items :: ListText(v.s, items) then
      exists items :: ListText(v.s, items) && r == Arr(items)
    else if IsNumericField(key) && v.Str? && exists n: nat :: NumberText(v.s, n) then
      exists n: nat :: NumberText(v.s, n) && r == Number(UInt(n))
    else if IsBooleanField(key) && v.Str? && exists b :: BoolText(v.s, b) then
      exists b :: BoolText(v.s, b) && r == Bool(b)
    else Becomes(v, r)
  }

  lemma {:induction false} TextsStay(items: seq<Value>)
    requires forall v :: v in items ==> v.Str?
    ensures RepairItems(items) == items
  {
    if items != [] { TextsStay(items[1..]); }
  }

  lemma {:induction false} RepairItemsAt(items: seq<Value>, k: nat)
    requires k < |items|
    ensures RepairItems(items)[k] == Repair(items[k])
  {
    if k > 0 { RepairItemsAt(items[1..], k - 1); }
  }

  /** The repair gives exactly what a payload is to become. */
  lemma {:induction false} RepairExactly(v: Value, r: Value)
    ensures r == Repair(v) <==> Becomes(v, r)
    decreases v, 0
  {
    match v
    case Obj(fields) =>
      if r.Obj? && |r.fields| == |fields| {
        forall i | 0 <= i < |fields|
          ensures r.fields[i] == RepairFields(fields)[i] <==>
                  r.fields[i].key == fields[i].key && FieldBecomes(fields[i].key, fields[i].value, r.fields[i].value)
        {
          RepairFieldsAt(fields, i);
          FieldExactly(fields[i].key, fields[i].value, r.fields[i].value);
        }
      }
    case Arr(items) =>
      if r.Arr? && |r.items| == |items| {
        forall i | 0 <= i < |items| ensures r.items[i] == RepairItems(items)[i] <==> Becomes(items[i], r.items[i]) {
          RepairItemsAt(items, i);
          RepairExactly(items[i], r.items[i]);
        }
      }
    case _ =>
  }

  lemma ListBranch(s: string, r: Value)
    ensures SingletonAsArray(Str(s)).Some? <==> exists items :: ListText(s, items)
    ensures SingletonAsArray(Str(s)).Some? ==>
              (r == Repair(SingletonAsArray(Str(s)).value) <==> exists items :: ListText(s, items) && r == Arr(items))
  {
    ListOrNothing(s);
    if SingletonAsArray(Str(s)).Some? {
      var items := SingletonAsArray(Str(s)).value.items;
      TextsStay(items);
      ListExactly(s, items);
      forall other | ListText(s, other) ensures other == items { ListExactly(s, other); }
    }
  }

  lemma NumberBranch(v: Value, r: Value)
    ensures NumericString(v).Some? <==> v.Str? && exists n: nat :: NumberText(v.s, n)
    ensures NumericString(v).Some? ==>
              (r == NumericString(v).value <==> exists n: nat :: NumberText(v.s, n) && r == Number(UInt(n)))
  {
    NumberOrNothing(v);
    if NumericString(v).Some? {
      forall n: nat | NumberText(v.s, n) ensures NumericString(v).value == Number(UInt(n)) { NumberExactly(v, n); }
    }
  }

  lemma BoolBranch(v: Value, r: Value)
    ensures BooleanString(v).Some? <==> v.Str? && exists b :: BoolText(v.s, b)
    ensures BooleanString(v).Some? ==>
              (r == BooleanString(v).value <==> exists b :: BoolText(v.s, b) && r == Bool(b))
  {
    BoolOrNothing(v);
    if BooleanString(v).Some? {
      forall b | BoolText(v.s, b) ensures BooleanString(v).value == Bool(b) { BoolExactly(v, b); }
    }
  }

  lemma {:induction false} ObjectBranch(v: Value, r: Value)
    requires v.Obj?
    ensures SingletonAsArray(v).Some?
    ensures r == Repair(SingletonAsArray(v).value) <==> r.Arr? && |r.items| == 1 && Becomes(v, r.items[0])
    decreases v, 1
  {
    assert Repair(Arr([v])) == Arr([Repair(v)]);
    if r.Arr? && |r.items| == 1 {
      RepairExactly(v, r.items[0]);
      assert r.items == [r.items[0]];
    }
  }

  lemma {:induction false} FieldExactly(key: string, v: Value, r: Value)
    ensures r == RepairField(key, v) <==> FieldBecomes(key, v, r)
    decreases v, 2
  {
    if IsArrayField(key) && v.Obj? {
      ObjectBranch(v, r);
    } else if IsArrayField(key) && v.Str? && SingletonAsArray(v).Some? {
      ListBranch(v.s, r);
    } else {
      if v.Str? { ListBranch(v.s, r); }
      RepairExactly(v, r);
      ScalarField(key, v, r);
    }
  }

  /** A field that is not wrapped. */
  lemma ScalarField(key: string, v: Value, r: Value)
    requires IsArrayField(key) ==> !v.Obj? && (v.Str? ==> !exists items :: ListText(v.s, items))
    requires IsArrayField(key) ==> SingletonAsArray(v).None?
    requires r == Repair(v) <==> Becomes(v, r)
    ensures r == RepairField(key, v) <==> FieldBecomes(key, v, r)
  {
    NumberBranch(v, r);
    BoolBranch(v, r);
  }

  // ----- the normalisation -----

  /** What a create or an update asks for: the id that its payload gets if it has none. */
  ghost predicate Assigns(verb: string, endpoint: string, id: string) {
    || (verb == "POST" && id == "" && endpoint in COLLECTION_BASES)
    || (verb == "PUT" && id != "" && exists base :: base in COLLECTION_BASES && endpoint == base + "/" + id)
  }

  /** The name a rule gets that has none. */
  ghost predicate Names(summary: string, name: string) {
    if Blank(summary) then name == "Assistant generated rule"
    else name != "" && Trimmed(name) && Pads(summary, name)
  }

  /** An entry that `before` lacks and that a new rule has by default. */
  ghost predicate IsDefault(before: seq<Field>, id: string, summary: string, f: Field) {
    || (f == Field("id", Str(id)) && !HasKey(before, "id"))
    || (f == Field("enabled", Bool(true)) && !HasKey(before, "enabled"))
    || (f.key == "name" && f.value.Str? && Names(summary, f.value.s)
        && !HasKey(before, "name") && !HasKey(before, "bp_type"))
    || (f == Field("location", Obj([]))
        && !HasKey(before, "location") && !HasKey(before, "url") && !HasKey(before, "code"))
  }

  /** Everything given is kept, and exactly the defaults it lacks are added, each once. */
  ghost predicate CompletedWith(before: seq<Field>, id: string, summary: string, after: seq<Field>) {
    var added := after[if |before| <= |after| then |before| else 0..];
    before <= after && DistinctKeys(added) && forall f :: f in added <==> IsDefault(before, id, summary, f)
  }

  lemma NamesExactly(summary: string, name: string)
    ensures name == RuleName(summary) <==> Names(summary, name)
  {
    BlankExactly(summary);
    TrimExactly(summary, name);
  }

  function OneIf(c: bool, f: Field): seq<Field> { if c then [f] else [] }

  lemma HasKeyAppend(fields: seq<Field>, f: Field, key: string)
    ensures HasKey(fields + [f], key) <==> HasKey(fields, key) || f.key == key
  {
    if HasKey(fields, key) {
      var i :| 0 <= i < |fields| && fields[i].key == key;
      assert (fields + [f])[i].key == key;
    }
    assert (fields + [f])[|fields|] == f;
    if HasKey(fields + [f], key) && f.key != key {
      var i :| 0 <= i < |fields + [f]| && (fields + [f])[i].key == key;
      assert fields[i].key == key;
    }
  }

  lemma HasKeyIf(fields: seq<Field>, c: bool, f: Field, key: string)
    ensures HasKey(fields + OneIf(c, f), key) <==> HasKey(fields, key) || (c && f.key == key)
  {
    if c { HasKeyAppend(fields, f, key); } else { assert fields + [] == fields; }
  }

  lemma KeysApart()
    ensures "enabled" != "id" && "name" !in {"id", "enabled"} && "bp_type" !in {"id", "enabled"}
    ensures "location" !in {"id", "enabled", "name"} && "url" !in {"id", "enabled", "name"}
    ensures "code" !in {"id", "enabled", "name"}
  {
    assert "bp_type"[0] == 'b' && "enabled"[0] == 'e' && "code"[0] == 'c' && "name"[0] == 'n';
  }

  /** Which defaults an object lacks. */
  datatype Lacks = Lacks(id: bool, enabled: bool, name: bool, location: bool)

  ghost function LacksOf(fields: seq<Field>): Lacks {
    Lacks(!HasKey(fields, "id"), !HasKey(fields, "enabled"), !HasKey(fields, "name") && !HasKey(fields, "bp_type"),
          !HasKey(fields, "location") && !HasKey(fields, "url") && !HasKey(fields, "code"))
  }

  ghost function Added(l: Lacks, id: string, summary: string): seq<Field> {
    OneIf(l.id, Field("id", Str(id))) + OneIf(l.enabled, Field("enabled", Bool(true)))
    + OneIf(l.name, Field("name", Str(RuleName(summary)))) + OneIf(l.location, Field("location", Obj([])))
  }

  lemma OtherKey(fields: seq<Field>, c: bool, f: Field, key: string)
    requires key != f.key
    ensures HasKey(fields + OneIf(c, f), key) <==> HasKey(fields, key)
  {
    HasKeyIf(fields, c, f, key);
  }

  /** The four defaults do not stand in each other's way. */
  lemma CompleteShape(fields: seq<Field>, id: string, summary: string)
    ensures Complete(fields, id, summary) == fields + Added(LacksOf(fields), id, summary)
  {
    var l := LacksOf(fields);
    var f, g, h := Field("id", Str(id)), Field("enabled", Bool(true)), Field("name", Str(RuleName(summary)));
    var a := fields + OneIf(l.id, f);
    var b := a + OneIf(l.enabled, g);
    var c := b + OneIf(l.name, h);
    KeysApart();
    OtherKey(fields, l.id, f, "enabled");
    forall key | key in {"name", "bp_type"} ensures HasKey(b, key) <==> HasKey(fields, key) {
      OtherKey(fields, l.id, f, key);
      OtherKey(a, l.enabled, g, key);
    }
    forall key | key in {"location", "url", "code"} ensures HasKey(c, key) <==> HasKey(fields, key) {
      OtherKey(fields, l.id, f, key);
      OtherKey(a, l.enabled, g, key);
      OtherKey(b, l.name, h, key);
    }
    Steps(fields, id, summary, a, b, c);
    AddedInSteps(fields, l, id, summary);
  }

  lemma Steps(fields: seq<Field>, id: string, summary: string, a: seq<Field>, b: seq<Field>, c: seq<Field>)
    requires var l := LacksOf(fields);
             && a == fields + OneIf(l.id, Field("id", Str(id)))
             && b == a + OneIf(l.enabled, Field("enabled", Bool(true)))
             && c == b + OneIf(l.name, Field("name", Str(RuleName(summary))))
    requires HasKey(a, "enabled") <==> HasKey(fields, "enabled")
    requires forall key :: key in {"name", "bp_type"} ==> (HasKey(b, key) <==> HasKey(fields, key))
    requires forall key :: key in {"location", "url", "code"} ==> (HasKey(c, key) <==> HasKey(fields, key))
    ensures Complete(fields, id, summary) == c + OneIf(LacksOf(fields).location, Field("location", Obj([])))
  {
    EnsureFieldShape(fields, "id", Str(id));
    EnsureFieldShape(a, "enabled", Bool(true));
    EnsureNameShape(b, summary);
    EnsureLocationShape(c);
  }

  lemma EnsureFieldShape(fields: seq<Field>, key: string, v: Value)
    ensures EnsureField(fields, key, v) == fields + OneIf(!HasKey(fields, key), Field(key, v))
  {}

  lemma EnsureNameShape(fields: seq<Field>, summary: string)
    ensures EnsureRuleName(fields, summary) ==
            fields + OneIf(!HasKey(fields, "name") && !HasKey(fields, "bp_type"), Field("name", Str(RuleName(summary))))
  {}

  lemma EnsureLocationShape(fields: seq<Field>)
    ensures EnsureLocation(fields) ==
            fields + OneIf(!HasKey(fields, "location") && !HasKey(fields, "url") && !HasKey(fields, "code"),
                           Field("location", Obj([])))
  {}

  lemma AddedInSteps(fields: seq<Field>, l: Lacks, id: string, summary: string)
    ensures fields + Added(l, id, summary) ==
            fields + OneIf(l.id, Field("id", Str(id))) + OneIf(l.enabled, Field("enabled", Bool(true)))
            + OneIf(l.name, Field("name", Str(RuleName(summary)))) + OneIf(l.location, Field("location", Obj([])))
  {}

  lemma InAdded(l: Lacks, id: string, summary: string, f: Field)
    ensures f in Added(l, id, summary) <==>
            || (l.id && f == Field("id", Str(id))) || (l.enabled && f == Field("enabled", Bool(true)))
            || (l.name && f == Field("name", Str(RuleName(summary)))) || (l.location && f == Field("location", Obj([])))
  {
    InOneIf(l.id, Field("id", Str(id)), f);
    InOneIf(l.enabled, Field("enabled", Bool(true)), f);
    InOneIf(l.name, Field("name", Str(RuleName(summary))), f);
    InOneIf(l.location, Field("location", Obj([])), f);
  }

  lemma InOneIf(c: bool, g: Field, f: Field)
    ensures f in OneIf(c, g) <==> c && f == g
  {}

  lemma DistinctOneIf(fields: seq<Field>, c: bool, f: Field)
    requires DistinctKeys(fields) && forall g :: g in fields ==> g.key != f.key
    ensures DistinctKeys(fields + OneIf(c, f))
    ensures forall g :: g in fields + OneIf(c, f) ==> g in fields || g == f
  {}

  lemma DistinctAdded(l: Lacks, id: string, summary: string)
    ensures DistinctKeys(Added(l, id, summary))
  {
    var f, g, h := Field("id", Str(id)), Field("enabled", Bool(true)), Field("name", Str(RuleName(summary)));
    KeysApart();
    DistinctOneIf(OneIf(l.id, f), l.enabled, g);
    DistinctOneIf(OneIf(l.id, f) + OneIf(l.enabled, g), l.name, h);
    DistinctOneIf(OneIf(l.id, f) + OneIf(l.enabled, g) + OneIf(l.name, h), l.location, Field("location", Obj([])));
  }

  lemma AddedDefaults(fields: seq<Field>, id: string, summary: string)
    ensures var added := Added(LacksOf(fields), id, summary);
            DistinctKeys(added) && forall f :: f in added <==> IsDefault(fields, id, summary, f)
  {
    var l := LacksOf(fields);
    DistinctAdded(l, id, summary);
    forall f ensures f in Added(l, id, summary) <==> IsDefault(fields, id, summary, f) {
      InAdded(l, id, summary, f);
      if f.value.Str? { NamesExactly(summary, f.value.s); }
    }
  }

  /** A new or updated rule keeps what it is given and gets exactly what it lacks. */
  lemma CompleteExactly(fields: seq<Field>, id: string, summary: string)
    ensures CompletedWith(fields, id, summary, Complete(fields, id, summary))
  {
    CompleteShape(fields, id, summary);
    AddedDefaults(fields, id, summary);
    assert (fields + Added(LacksOf(fields), id, summary))[|fields|..] == Added(LacksOf(fields), id, summary);
  }

  lemma PathIdExactly(endpoint: string, base: string, id: string)
    ensures PathId(endpoint, base) == Some(id) <==> id != "" && endpoint == base + "/" + id
  {
    if PathId(endpoint, base) == Some(id) {
      assert endpoint == endpoint[..|base| + 1] + endpoint[|base| + 1..];
    }
    if id != "" && endpoint == base + "/" + id { assert endpoint[|base| + 1..] == id; }
  }

  lemma {:induction false} AssignedAmong(verb: string, endpoint: string, bases: seq<string>)
    ensures AssignedId(verb, endpoint, bases).Some? ==>
              var id := AssignedId(verb, endpoint, bases).value;
              || (verb == "POST" && id == "" && endpoint in bases)
              || (verb == "PUT" && id != "" && exists base :: base in bases && endpoint == base + "/" + id)
    ensures AssignedId(verb, endpoint, bases).None? ==>
              && (verb == "POST" ==> endpoint !in bases)
              && (verb == "PUT" ==> forall base, id :: base in bases && id != "" ==> endpoint != base + "/" + id)
  {
    if bases != [] {
      AssignedAmong(verb, endpoint, bases[1..]);
      assert bases == [bases[0]] + bases[1..];
      forall id ensures PathId(endpoint, bases[0]) == Some(id) <==> id != "" && endpoint == bases[0] + "/" + id {
        PathIdExactly(endpoint, bases[0], id);
      }
    }
  }

  /** `v` is the repaired payload and, for a rule, completed. */
  ghost predicate Settles(verb: string, endpoint: string, summary: string, payload: Value, v: Value) {
    exists mid ::
      && Becomes(payload, Obj(mid))
      && if exists id :: Assigns(verb, endpoint, id) then
           v.Obj? && exists id :: Assigns(verb, endpoint, id) && CompletedWith(mid, id, summary, v.fields)
         else v == Obj(mid)
  }

  /** What the normalisation makes of a payload: a deletion and a null payload pass as
      they are, an object is repaired and completed, and anything else is refused. */
  lemma NormalizeExactly(verb: string, endpoint: string, payload: Value, summary: string)
    ensures var r := Normalize(verb, endpoint, payload, summary);
            if verb == "DELETE" || payload.Null? then r == Ok(payload)
            else (r.Ok? <==> payload.Obj?) && (r.Ok? ==> Settles(verb, endpoint, summary, payload, r.value))
  {
    if verb != "DELETE" && payload.Obj? {
      var mid := Repair(payload).fields;
      RepairExactly(payload, Obj(mid));
      AssignedAmong(verb, endpoint, COLLECTION_BASES);
      var given := AssignedId(verb, endpoint, COLLECTION_BASES);
      if given.Some? {
        assert Assigns(verb, endpoint, given.value);
        CompleteExactly(mid, given.value, summary);
      }
    }
  }
}
