/** What the validator reports: which errors, about which paths, and in which order (schema.rs). */
module ValidationReport {
  import opened Wrappers
  import opened OrderedMaps
  import opened Listings
  import opened Values
  import opened Schemas
  import opened NetworkTexts

  type Errors = Teller<ValidationError>

  // ---------------------------------------------------------------- what is wrong, and where

  /** Text stands in for a network wherever one is asked for. */
  ghost predicate IsOfType(t: FieldType, value: Value) {
    t == ValueType(value) || (t == IpNetworkType && value.String?)
  }

  ghost predicate Outside(w: Walk, node: SchemaNode, n: int, path: string, at: Spot, e: ValidationError) {
    && e == OutOfRange(w.fragment, path, node.minimum, node.maximum)
    && (|| (at == [0] && node.minimum.Some? && n < node.minimum.value)
        || (at == [1] && node.maximum.Some? && n > node.maximum.value))
  }

  ghost predicate WrongText(w: Walk, node: SchemaNode, t: FieldType, s: string, path: string, e: ValidationError) {
    if t == StringType
    then node.allowed.Some? && s !in node.allowed.value && e == EnumViolation(w.fragment, path, node.allowed.value)
    else !IsIpv4NetworkText(w.text, s) && e == InvalidFormat(w.fragment, path)
  }

  /**
   An error about a value: its type; its range, enumeration or format; or an
   error inside, first about the entries of a map or the items of a list in
   order, then about the required keys that are absent.
   */
  ghost predicate Wrong(w: Walk, node: SchemaNode, value: Value, path: string, at: Spot, e: ValidationError)
    decreases value, 0
  {
    SemanticType(node).Some? &&
    var t := SemanticType(node).value;
    if !IsOfType(t, value) then at == [] && e == WrongType(w.fragment, path, t, ValueType(value))
    else match value
      case U64(n) => Outside(w, node, n, path, at, e)
      case I64(n) => Outside(w, node, n, path, at, e)
      case String(s) => at == [] && WrongText(w, node, t, s, path, e)
      case IpNetwork(addr, prefix) =>
        at == [] && !(addr.V4? && prefix <= 32) && e == InvalidFormat(w.fragment, path)
      case Map(entries) => WrongMap(w, node, entries, path, [], at, e)
      case List(items) =>
        && at != [] && at[0] < |items| && node.items.Some?
        && Wrong(w, node.items.value, items[at[0]], path + "[" + Decimal(at[0]) + "]", at[1..], e)
      case _ => false
  }

  ghost predicate WrongMap(w: Walk, node: SchemaNode, fields: Fields, prefix: string, ignored: seq<string>,
                           at: Spot, e: ValidationError)
    decreases fields, 1
  {
    && at != []
    && if at[0] < |fields| then WrongEntry(w, node, fields[at[0]], prefix, ignored, at[1..], e)
       else at[1..] == [] && Lacks(w, node.required, fields, prefix, ignored, at[0] - |fields|, e)
  }

  ghost predicate Lacks(w: Walk, required: seq<string>, fields: Fields, prefix: string, ignored: seq<string>,
                        j: int, e: ValidationError) {
    && 0 <= j < |required| && required[j] !in ignored
    && (forall f | f in fields :: f.key != required[j])
    && e == MissingField(w.fragment, (if prefix == "" then "" else prefix + ".") + required[j])
  }

  /** An unknown key, or one that cannot be set where only settings count, and then what is wrong with its value. */
  ghost predicate WrongEntry(w: Walk, node: SchemaNode, entry: Entry<Value>, prefix: string, ignored: seq<string>,
                             at: Spot, e: ValidationError)
    decreases entry, 0
  {
    entry.key !in ignored &&
    var path := (if prefix == "" then "" else prefix + ".") + entry.key;
    match Get(node.properties, entry.key)
    case None => at == [] && !node.additionalProperties && e == UnknownField(w.fragment, path)
    case Some(property) =>
      || (at == [0] && w.writableOnly && !property.writable && e == ReadOnlyField(w.fragment, path))
      || (at != [] && at[0] == 1 && Wrong(w, property, entry.value, path, at[1..], e))
  }

  // ---------------------------------------------------------------- tellers

  function Nothing(): Errors {
    (at: Spot, e: ValidationError) => false
  }

  ghost function OfNode(w: Walk, node: SchemaNode, value: Value, path: string): Errors {
    (at: Spot, e: ValidationError) => Wrong(w, node, value, path, at, e)
  }

  ghost function OfMap(w: Walk, node: SchemaNode, fields: Fields, prefix: string, ignored: seq<string>): Errors {
    (at: Spot, e: ValidationError) => WrongMap(w, node, fields, prefix, ignored, at, e)
  }

  ghost function OfEntry(w: Walk, node: SchemaNode, entry: Entry<Value>, prefix: string,
                         ignored: seq<string>): Errors {
    (at: Spot, e: ValidationError) => WrongEntry(w, node, entry, prefix, ignored, at, e)
  }

  ghost function OfRange(w: Walk, node: SchemaNode, n: int, path: string): Errors {
    (at: Spot, e: ValidationError) => Outside(w, node, n, path, at, e)
  }

  /** A single error, if the condition holds. */
  function Only(holds: bool, error: ValidationError): Errors {
    (at: Spot, e: ValidationError) => at == [] && holds && e == error
  }

  lemma OnlyLists(holds: bool, error: ValidationError) returns (at: seq<Spot>)
    ensures Lists(Only(holds, error), if holds then [error] else [], at)
  {
    at := if holds then [[]] else [];
    Single(Only(holds, error), if holds then [error] else []);
  }

  function Two(first: Errors, second: Errors): nat -> Errors {
    (i: nat) => if i == 0 then first else second
  }

  /** Two parts after each other. */
  lemma Both(first: Errors, second: Errors, a: seq<ValidationError>, b: seq<ValidationError>,
             of: seq<Spot>, next: seq<Spot>) returns (at: seq<Spot>)
    requires Lists(first, a, of) && Lists(second, b, next)
    ensures Lists(Parts(Two(first, second), 2), a + b, at)
  {
    hide Lists, Parts;
    var parts := Two(first, second);
    NoParts(parts);
    OneMorePart(parts, 0, [], [], a, of);
    assert [] + a == a && [] + Inside(0, of) == Inside(0, of);
    OneMorePart(parts, 1, a, Inside(0, of), b, next);
    at := Inside(0, of) + Inside(1, next);
  }

  // ---------------------------------------------------------------- values

  lemma RangeLists(w: Walk, node: SchemaNode, value: Value, path: string) returns (at: seq<Spot>)
    requires ValueType(value) == IntegerType
    ensures Lists(OfRange(w, node, IntegerValue(value), path), RangeErrors(w, node, value, path), at)
  {
    hide Lists;
    var n := IntegerValue(value);
    var error := OutOfRange(w.fragment, path, node.minimum, node.maximum);
    var low, high := node.minimum.Some? && n < node.minimum.value, node.maximum.Some? && n > node.maximum.value;
    var first := OnlyLists(low, error);
    var second := OnlyLists(high, error);
    at := Both(Only(low, error), Only(high, error), if low then [error] else [], if high then [error] else [],
               first, second);
    Retold(Parts(Two(Only(low, error), Only(high, error)), 2),
           OfRange(w, node, n, path), RangeErrors(w, node, value, path), at);
  }

  lemma NetworkMeans(w: Walk, value: Value)
    requires value.String? || value.IpNetwork?
    ensures IsIpv4Cidr(w.text, value) <==>
            match value
            case String(s) => IsIpv4NetworkText(w.text, s)
            case IpNetwork(addr, prefix) => addr.V4? && prefix <= 32
  {
    hide IsIpv4NetworkText, ParseIpNetwork;
    if value.String? {
      Ipv4NetworkTextMeans(w.text, value.text);
    }
  }

  lemma TypeMeans(node: SchemaNode, value: Value)
    requires ValidSchemaNode(node)
    ensures TypeAccepts(node, SemanticType(node).value, ValueType(value))
       <==> IsOfType(SemanticType(node).value, value)
    ensures SemanticType(node) != Some(IpAddressType)
  {
    assert node.format.Some? ==> node.format.value.Ipv4Cidr?;
  }

  /** Values without parts. */
  lemma LeafLists(w: Walk, node: SchemaNode, value: Value, path: string) returns (at: seq<Spot>)
    requires ValidSchemaNode(node) && !value.Map? && !value.List?
    ensures Lists(OfNode(w, node, value, path), WalkNode(w, node, value, path), at)
  {
    hide Lists, IsIpv4Cidr, IsIpv4NetworkText, TypeAccepts;
    TypeMeans(node, value);
    var t := SemanticType(node).value;
    var errors := WalkNode(w, node, value, path);
    if TypeAccepts(node, t, ValueType(value)) && (value.U64? || value.I64?) {
      at := RangeLists(w, node, value, path);
      Retold(OfRange(w, node, IntegerValue(value), path), OfNode(w, node, value, path), errors, at);
    } else {
      if value.String? || value.IpNetwork? {
        NetworkMeans(w, value);
      }
      Single(OfNode(w, node, value, path), errors);
      at := if errors == [] then [] else [[]];
    }
  }

  // ---------------------------------------------------------------- parts

  ghost function OfItems(w: Walk, node: SchemaNode, items: seq<Value>, path: string): nat -> Errors {
    (i: nat) => OfItem(w, node, items, path, i)
  }

  ghost function OfItem(w: Walk, node: SchemaNode, items: seq<Value>, path: string, i: nat): Errors {
    if i < |items| then OfNode(w, node, items[i], path + "[" + Decimal(i) + "]") else Nothing()
  }

  lemma {:induction false} ItemsList(w: Walk, node: SchemaNode, items: seq<Value>, path: string) returns (at: seq<Spot>)
    requires ValidSchemaNode(node)
    ensures Lists(Parts(OfItems(w, node, items, path), |items|), WalkItems(w, node, items, path, 0), at)
    decreases items, 0
  {
    hide Lists, WalkNode, Parts;
    var parts := OfItems(w, node, items, path);
    var found: seq<ValidationError> := [];
    at := [];
    NoParts(parts);
    for n := 0 to |items|
      invariant Lists(Parts(parts, n), found, at)
      invariant WalkItems(w, node, items, path, 0) == found + WalkItems(w, node, items[n..], path, n)
    {
      var item := items[n];
      var within := NodeLists(w, node, item, path + "[" + Decimal(n) + "]");
      var more := WalkNode(w, node, item, ItemPath(path, n));
      OneMorePart(parts, n, found, at, more, within);
      assert items[n..][0] == item && items[n..][1..] == items[n + 1..];
      assert WalkItems(w, node, items[n..], path, n) == more + WalkItems(w, node, items[n + 1..], path, n + 1);
      found, at := found + more, at + Inside(n, within);
    }
    assert items[|items|..] == [] && found + [] == found;
  }

  ghost function OfEntries(w: Walk, node: SchemaNode, fields: Fields, prefix: string, ignored: seq<string>)
    : nat -> Errors
  {
    (i: nat) => OfEntryAt(w, node, fields, prefix, ignored, i)
  }

  ghost function OfEntryAt(w: Walk, node: SchemaNode, fields: Fields, prefix: string, ignored: seq<string>, i: nat)
    : Errors
  {
    if i < |fields| then OfEntry(w, node, fields[i], prefix, ignored) else Nothing()
  }

  lemma {:induction false} EntriesList(w: Walk, node: SchemaNode, fields: Fields, prefix: string, ignored: seq<string>)
    returns (at: seq<Spot>)
    requires ValidSchemaNode(node)
    ensures Lists(Parts(OfEntries(w, node, fields, prefix, ignored), |fields|),
                  WalkEntries(w, node, fields, prefix, ignored), at)
    decreases fields, 0
  {
    hide Lists, WalkEntry, Parts;
    var parts := OfEntries(w, node, fields, prefix, ignored);
    var found: seq<ValidationError> := [];
    at := [];
    NoParts(parts);
    for n := 0 to |fields|
      invariant Lists(Parts(parts, n), found, at)
      invariant WalkEntries(w, node, fields, prefix, ignored)
             == found + WalkEntries(w, node, fields[n..], prefix, ignored)
    {
      var within := EntryLists(w, node, fields[n], prefix, ignored);
      var more := WalkEntry(w, node, fields[n], prefix, ignored);
      OneMorePart(parts, n, found, at, more, within);
      assert fields[n..][0] == fields[n] && fields[n..][1..] == fields[n + 1..];
      assert WalkEntries(w, node, fields[n..], prefix, ignored)
          == more + WalkEntries(w, node, fields[n + 1..], prefix, ignored);
      found, at := found + more, at + Inside(n, within);
    }
    assert fields[|fields|..] == [] && found + [] == found;
  }

  ghost function OfMissing(w: Walk, required: seq<string>, fields: Fields, prefix: string, ignored: seq<string>)
    : nat -> Errors
  {
    (j: nat) => (at: Spot, e: ValidationError) => at == [] && Lacks(w, required, fields, prefix, ignored, j, e)
  }

  lemma MissingHere(w: Walk, required: seq<string>, fields: Fields, prefix: string, ignored: seq<string>, n: nat)
    returns (at: seq<Spot>)
    requires n < |required|
    ensures Lists(OfMissing(w, required, fields, prefix, ignored)(n),
                  MissingFields(w, [required[n]], fields, prefix, ignored), at)
    ensures MissingFields(w, required[n..], fields, prefix, ignored)
         == MissingFields(w, [required[n]], fields, prefix, ignored)
            + MissingFields(w, required[n + 1..], fields, prefix, ignored)
  {
    hide Lists, Get;
    var error := MissingField(w.fragment, JoinPath(prefix, required[n]));
    var absent := !Has(fields, required[n]) && required[n] !in ignored;
    at := OnlyLists(absent, error);
    assert [required[n]][1..] == [];
    var more := if absent then [error] else [];
    assert MissingFields(w, [required[n]], fields, prefix, ignored) == more + [] == more;
    Retold(Only(absent, error), OfMissing(w, required, fields, prefix, ignored)(n), more, at);
    assert required[n..][0] == required[n] && required[n..][1..] == required[n + 1..];
  }

  lemma MissingList(w: Walk, required: seq<string>, fields: Fields, prefix: string, ignored: seq<string>)
    returns (at: seq<Spot>)
    ensures Lists(Parts(OfMissing(w, required, fields, prefix, ignored), |required|),
                  MissingFields(w, required, fields, prefix, ignored), at)
  {
    hide Lists, Parts, MissingFields, Lacks;
    var parts := OfMissing(w, required, fields, prefix, ignored);
    var found: seq<ValidationError> := [];
    at := [];
    NoParts(parts);
    assert required[0..] == required;
    for n := 0 to |required|
      invariant Lists(Parts(parts, n), found, at)
      invariant MissingFields(w, required, fields, prefix, ignored)
             == found + MissingFields(w, required[n..], fields, prefix, ignored)
    {
      var within := MissingHere(w, required, fields, prefix, ignored, n);
      var more := MissingFields(w, [required[n]], fields, prefix, ignored);
      OneMorePart(parts, n, found, at, more, within);
      found, at := found + more, at + Inside(n, within);
    }
    NothingMissing(w, fields, prefix, ignored);
    assert required[|required|..] == [] && found + [] == found;
  }

  lemma NothingMissing(w: Walk, fields: Fields, prefix: string, ignored: seq<string>)
    ensures MissingFields(w, [], fields, prefix, ignored) == []
  {
  }

  lemma {:induction false} MapLists(w: Walk, node: SchemaNode, fields: Fields, prefix: string, ignored: seq<string>)
    returns (at: seq<Spot>)
    requires ValidSchemaNode(node)
    ensures Lists(OfMap(w, node, fields, prefix, ignored), WalkMap(w, node, fields, prefix, ignored), at)
    decreases fields, 1
  {
    hide Lists, Parts, WalkEntries, MissingFields, InRows;
    var of := EntriesList(w, node, fields, prefix, ignored);
    var next := MissingList(w, node.required, fields, prefix, ignored);
    var first := Parts(OfEntries(w, node, fields, prefix, ignored), |fields|);
    var second := Parts(OfMissing(w, node.required, fields, prefix, ignored), |node.required|);
    MapRows(w, node, fields, prefix, ignored);
    Joined(OfMap(w, node, fields, prefix, ignored), first, |fields|, second,
           WalkEntries(w, node, fields, prefix, ignored), of,
           MissingFields(w, node.required, fields, prefix, ignored), next);
    at := of + AllRaised(|fields|, next);
  }

  lemma MapRows(w: Walk, node: SchemaNode, fields: Fields, prefix: string, ignored: seq<string>)
    ensures InRows(OfMap(w, node, fields, prefix, ignored),
                   Parts(OfEntries(w, node, fields, prefix, ignored), |fields|), |fields|,
                   Parts(OfMissing(w, node.required, fields, prefix, ignored), |node.required|))
  {
    hide WrongEntry, Lacks, Parts;
    forall j: int, e ensures Lacks(w, node.required, fields, prefix, ignored, j, e) ==> 0 <= j < |node.required| {
      LacksInRange(w, node.required, fields, prefix, ignored, j, e);
    }
  }

  lemma LacksInRange(w: Walk, required: seq<string>, fields: Fields, prefix: string, ignored: seq<string>, j: int,
                     e: ValidationError)
    ensures Lacks(w, required, fields, prefix, ignored, j, e) ==> 0 <= j < |required|
  {
  }

  lemma EntryParts(w: Walk, node: SchemaNode, entry: Entry<Value>, prefix: string, ignored: seq<string>,
                   property: SchemaNode)
    requires Property(node, entry.key) == Some(property) && entry.key !in ignored
    ensures var path := JoinPath(prefix, entry.key);
            var before := Only(w.writableOnly && !property.writable, ReadOnlyField(w.fragment, path));
            forall spot, e ::
              Parts(Two(before, OfNode(w, property, entry.value, path)), 2)(spot, e)
              <==> OfEntry(w, node, entry, prefix, ignored)(spot, e)
  {
    hide Wrong;
    var path := JoinPath(prefix, entry.key);
    assert path == (if prefix == "" then "" else prefix + ".") + entry.key;
    forall spot: Spot, e
      ensures WrongEntry(w, node, entry, prefix, ignored, spot, e) <==>
              || (spot == [0] && w.writableOnly && !property.writable && e == ReadOnlyField(w.fragment, path))
              || (spot != [] && spot[0] == 1 && Wrong(w, property, entry.value, path, spot[1..], e))
    {
    }
    assert forall spot: Spot :: spot == [0] <==> spot != [] && spot[0] == 0 && spot[1..] == [];
  }

  lemma EntryErrorsAre(w: Walk, node: SchemaNode, entry: Entry<Value>, prefix: string, ignored: seq<string>,
                       property: SchemaNode)
    requires ValidSchemaNode(node) && Property(node, entry.key) == Some(property) && entry.key !in ignored
    requires ValidSchemaNode(property)
    ensures var path := JoinPath(prefix, entry.key);
            WalkEntry(w, node, entry, prefix, ignored) ==
            (if w.writableOnly && !property.writable then [ReadOnlyField(w.fragment, path)] else []) +
            WalkNode(w, property, entry.value, path)
  {
    hide WalkNode;
  }

  lemma {:induction false} EntryLists(w: Walk, node: SchemaNode, entry: Entry<Value>, prefix: string,
                                      ignored: seq<string>) returns (at: seq<Spot>)
    requires ValidSchemaNode(node)
    ensures Lists(OfEntry(w, node, entry, prefix, ignored), WalkEntry(w, node, entry, prefix, ignored), at)
    decreases entry, 0
  {
    hide Lists, Parts, WalkNode, Wrong;
    var path := JoinPath(prefix, entry.key);
    var errors := WalkEntry(w, node, entry, prefix, ignored);
    assert path == (if prefix == "" then "" else prefix + ".") + entry.key;
    match Property(node, entry.key) {
      case None =>
        Single(OfEntry(w, node, entry, prefix, ignored), errors);
        at := if errors == [] then [] else [[]];
      case Some(property) =>
        PropertyIsValid(node, entry.key);
        if entry.key in ignored {
          Single(OfEntry(w, node, entry, prefix, ignored), []);
          at := [];
        } else {
          var readOnly := w.writableOnly && !property.writable;
          var error := ReadOnlyField(w.fragment, path);
          var first := OnlyLists(readOnly, error);
          var next := NodeLists(w, property, entry.value, path);
          var own, inner := if readOnly then [error] else [], WalkNode(w, property, entry.value, path);
          var before, after := Only(readOnly, error), OfNode(w, property, entry.value, path);
          at := Both(before, after, own, inner, first, next);
          EntryErrorsAre(w, node, entry, prefix, ignored, property);
          EntryParts(w, node, entry, prefix, ignored, property);
          Retold(Parts(Two(before, after), 2), OfEntry(w, node, entry, prefix, ignored), errors, at);
        }
    }
  }

  /** The errors of a value, in order: exactly those that are wrong about it. */
  lemma {:induction false} NodeLists(w: Walk, node: SchemaNode, value: Value, path: string) returns (at: seq<Spot>)
    requires ValidSchemaNode(node)
    ensures Lists(OfNode(w, node, value, path), WalkNode(w, node, value, path), at)
    decreases value, 0
  {
    hide Lists, Parts, TypeAccepts, WalkMap, WalkItems;
    TypeMeans(node, value);
    var t := SemanticType(node).value;
    var errors := WalkNode(w, node, value, path);
    if !TypeAccepts(node, t, ValueType(value)) {
      Single(OfNode(w, node, value, path), errors);
      at := [[]];
    } else {
      match value {
        case Map(entries) =>
          at := MapLists(w, node, entries, path, []);
          Retold(OfMap(w, node, entries, path, []), OfNode(w, node, value, path), errors, at);
        case List(items) =>
          if node.items.Some? {
            at := ItemsList(w, node.items.value, items, path);
            Retold(Parts(OfItems(w, node.items.value, items, path), |items|), OfNode(w, node, value, path), errors, at);
          } else {
            Single(OfNode(w, node, value, path), errors);
            at := [];
          }
        case _ => at := LeafLists(w, node, value, path);
      }
    }
  }

  // ---------------------------------------------------------------- states

  /**
   An error about a state: fragment by fragment; in the base its fields, other
   than the triggers of fragments, and then its type, which can always be given;
   in any other fragment the map below its trigger, when the state has that.
   */
  ghost predicate WrongState(registry: SchemaRegistry, s: State, writableOnly: bool, at: Spot, e: ValidationError) {
    && at != [] && at[0] < |registry.fragments|
    && WrongFragment(registry, registry.fragments[at[0]], s, writableOnly, at[1..], e)
  }

  ghost predicate WrongFragment(registry: SchemaRegistry, f: Fragment, s: State, writableOnly: bool, at: Spot,
                                e: ValidationError) {
    var w := Walk(registry.text, f.name, writableOnly);
    match f.triggerKey
    case None =>
      && at != []
      && (|| (at[0] == 0 && WrongMap(w, f.root, s.fields, "", TriggerKeys(registry.fragments), at[1..], e))
          || (at[0] == 1 && s.deviceType != "" && Get(f.root.properties, "type").Some?
              && Wrong(w, Get(f.root.properties, "type").value, String(s.deviceType), "type", at[1..], e)))
    case Some(key) =>
      Get(s.fields, key).Some? &&
      match Get(s.fields, key).value
      case Map(entries) => WrongMap(w, f.root, entries, key, [], at, e)
      case other => at == [] && e == WrongType(f.name, key, ObjectType, ValueType(other))
  }

  lemma {:induction false} TriggerKeysMean(fragments: seq<Fragment>)
    ensures forall key :: key in TriggerKeys(fragments) <==> exists f | f in fragments :: f.triggerKey == Some(key)
  {
    if fragments != [] {
      TriggerKeysMean(fragments[1..]);
      assert fragments == [fragments[0]] + fragments[1..];
    }
  }

  ghost function OfFragment(registry: SchemaRegistry, f: Fragment, s: State, writableOnly: bool): Errors {
    (at: Spot, e: ValidationError) => WrongFragment(registry, f, s, writableOnly, at, e)
  }

  ghost function OfFragmentAt(registry: SchemaRegistry, s: State, writableOnly: bool, i: nat): Errors {
    if i < |registry.fragments| then OfFragment(registry, registry.fragments[i], s, writableOnly) else Nothing()
  }

  ghost function OfFragments(registry: SchemaRegistry, s: State, writableOnly: bool): nat -> Errors {
    (i: nat) => OfFragmentAt(registry, s, writableOnly, i)
  }

  ghost function OfState(registry: SchemaRegistry, s: State, writableOnly: bool): Errors {
    (at: Spot, e: ValidationError) => WrongState(registry, s, writableOnly, at, e)
  }

  /** Whether errors about settings are asked for makes no difference to a value that is no map or list. */
  lemma LeafModes(w: Walk, node: SchemaNode, s: string, path: string)
    requires ValidSchemaNode(node)
    ensures WalkNode(w.(writableOnly := false), node, String(s), path) == WalkNode(w, node, String(s), path)
  {
    hide IsIpv4Cidr;
  }

  lemma FragmentLists(registry: SchemaRegistry, f: Fragment, s: State, writableOnly: bool) returns (at: seq<Spot>)
    requires ValidFragment(f)
    ensures Lists(OfFragment(registry, f, s, writableOnly), FragmentErrors(registry, f, s, writableOnly), at)
  {
    hide Lists, Parts, WalkMap, WalkNode, WrongMap, Wrong, DeriveFields, TriggerKeys;
    var w := Walk(registry.text, f.name, writableOnly);
    var errors := FragmentErrors(registry, f, s, writableOnly);
    match f.triggerKey {
      case None =>
        var ignored := TriggerKeys(registry.fragments);
        var first := MapLists(w, f.root, s.fields, "", ignored);
        var own := WalkMap(w, f.root, s.fields, "", ignored);
        var node := Property(f.root, "type").value;
        PropertyIsValid(f.root, "type");
        if s.deviceType == "" {
          Single(Nothing(), []);
          at := Both(OfMap(w, f.root, s.fields, "", ignored), Nothing(), own, [], first, []);
          Retold(Parts(Two(OfMap(w, f.root, s.fields, "", ignored), Nothing()), 2),
                 OfFragment(registry, f, s, writableOnly), errors, at);
        } else {
          var typed := OfNode(w, node, String(s.deviceType), "type");
          var next := NodeLists(w, node, String(s.deviceType), "type");
          LeafModes(w, node, s.deviceType, "type");
          at := Both(OfMap(w, f.root, s.fields, "", ignored), typed, own,
                     WalkNode(w, node, String(s.deviceType), "type"), first, next);
          assert errors == own + WalkNode(w, node, String(s.deviceType), "type");
          Retold(Parts(Two(OfMap(w, f.root, s.fields, "", ignored), typed), 2),
                 OfFragment(registry, f, s, writableOnly), errors, at);
        }
      case Some(key) =>
        if Get(s.fields, key).Some? && Get(s.fields, key).value.Map? {
          var entries := Get(s.fields, key).value.entries;
          at := MapLists(w, f.root, entries, key, []);
          Retold(OfMap(w, f.root, entries, key, []), OfFragment(registry, f, s, writableOnly), errors, at);
        } else {
          Single(OfFragment(registry, f, s, writableOnly), errors);
          at := if errors == [] then [] else [[]];
        }
    }
  }

  /** Validation reports exactly what is wrong with a state, in that order, each error once. */
  lemma ValidationLists(registry: SchemaRegistry, s: State, writableOnly: bool) returns (at: seq<Spot>)
    requires ValidRegistry(registry)
    ensures Lists(OfState(registry, s, writableOnly),
                  ValidateFrom(registry, registry.fragments, s, writableOnly), at)
  {
    hide Lists, Parts, FragmentErrors, WrongFragment, ValidFragment;
    var fragments := registry.fragments;
    var parts := OfFragments(registry, s, writableOnly);
    var found: seq<ValidationError> := [];
    at := [];
    NoParts(parts);
    for n := 0 to |fragments|
      invariant Lists(Parts(parts, n), found, at)
      invariant ValidateFrom(registry, fragments, s, writableOnly)
             == found + ValidateFrom(registry, fragments[n..], s, writableOnly)
    {
      assert fragments[n] in fragments;
      var within := FragmentLists(registry, fragments[n], s, writableOnly);
      var more := FragmentErrors(registry, fragments[n], s, writableOnly);
      OneMorePart(parts, n, found, at, more, within);
      assert fragments[n..][0] == fragments[n] && fragments[n..][1..] == fragments[n + 1..];
      found, at := found + more, at + Inside(n, within);
    }
    assert fragments[|fragments|..] == [] && found + [] == found;
    Retold(Parts(parts, |fragments|), OfState(registry, s, writableOnly), found, at);
  }

  /** The two entry points: reading tolerates what cannot be set, writing does not. */
  lemma ReportIsExact(registry: SchemaRegistry, s: State) returns (read: seq<Spot>, written: seq<Spot>)
    requires ValidRegistry(registry)
    ensures Lists(OfState(registry, s, false), Validate(registry, s), read)
    ensures Lists(OfState(registry, s, true), ValidateWritable(registry, s), written)
  {
    hide Lists, ValidateFrom, WrongState;
    read := ValidationLists(registry, s, false);
    written := ValidationLists(registry, s, true);
  }
}
