/** The validator accepts exactly the conforming states, in both modes (schema.rs). */
module Conformance {
  import opened OrderedMaps
  import opened Values
  import opened Schemas
  import opened NetworkTexts

  // ---------------------------------------------------------------- what conforming means

  ghost predicate InRange(node: SchemaNode, n: int) {
    && (node.minimum.Some? ==> node.minimum.value <= n)
    && (node.maximum.Some? ==> n <= node.maximum.value)
  }

  /** A value fits a node: its type, its range, its enumeration, its format, and its parts. */
  ghost predicate Conforms(w: Walk, node: SchemaNode, value: Value)
    requires ValidSchemaNode(node)
    decreases value, 0
  {
    match (SemanticType(node).value, value)
    case (IntegerType, U64(n)) => InRange(node, n)
    case (IntegerType, I64(n)) => InRange(node, n)
    case (StringType, String(text)) => node.allowed.Some? ==> text in node.allowed.value
    case (BooleanType, Bool(_)) => true
    case (IpNetworkType, IpNetwork(addr, prefix)) => addr.V4? && prefix <= 32
    case (IpNetworkType, String(s)) => IsIpv4NetworkText(w.text, s)
    case (ObjectType, Map(entries)) => ConformsFields(w, node, entries, [])
    case (ArrayType, List(items)) => node.items.Some? ==> forall v | v in items :: Conforms(w, node.items.value, v)
    case _ => false
  }

  /** Every field is allowed, settable if it has to be, and conforms; every required field is there. */
  ghost predicate ConformsFields(w: Walk, node: SchemaNode, fields: Fields, ignored: seq<string>)
    requires ValidSchemaNode(node)
    decreases fields, 1
  {
    && (forall e | e in fields :: ConformsEntry(w, node, e, ignored))
    && (forall k | k in node.required && k !in ignored :: Has(fields, k))
  }

  ghost predicate ConformsEntry(w: Walk, node: SchemaNode, entry: Entry<Value>, ignored: seq<string>)
    requires ValidSchemaNode(node)
    decreases entry, 1
  {
    entry.key in ignored ||
    match Property(node, entry.key)
    case None => node.additionalProperties
    case Some(property) => (w.writableOnly ==> property.writable) && Conforms(w, property, entry.value)
  }

  ghost predicate ConformsFragment(registry: SchemaRegistry, f: Fragment, state: State, writableOnly: bool)
    requires ValidFragment(f)
  {
    var w := Walk(registry.text, f.name, writableOnly);
    match f.triggerKey
    case None =>
      && ConformsFields(w, f.root, state.fields, TriggerKeys(registry.fragments))
      && (state.deviceType != "" ==> Conforms(w, Property(f.root, "type").value, String(state.deviceType)))
    case Some(key) =>
      match Get(state.fields, key)
      case Some(value) => value.Map? && ConformsFields(w, f.root, value.entries, [])
      case None => true
  }

  /** The declarative meaning of validity. */
  ghost predicate ConformsState(registry: SchemaRegistry, state: State, writableOnly: bool)
    requires ValidRegistry(registry)
  {
    forall f | f in registry.fragments :: ConformsFragment(registry, f, state, writableOnly)
  }

  // ---------------------------------------------------------------- no errors exactly when conforming

  lemma {:induction false} NodeErrors(w: Walk, node: SchemaNode, value: Value, path: string)
    requires ValidSchemaNode(node)
    ensures WalkNode(w, node, value, path) == [] <==> Conforms(w, node, value)
    decreases value, 0
  {
    var expected := SemanticType(node).value;
    if TypeAccepts(node, expected, ValueType(value)) {
      match expected {
        case ObjectType => FieldErrors(w, node, value.entries, path, []);
        case ArrayType =>
          if node.items.Some? {
            ItemErrors(w, node.items.value, value.items, path, 0);
          }
        case IntegerType => RangeErrorsMean(w, node, value, path);
        case StringType =>
        case IpNetworkType =>
          if value.String? {
            Ipv4NetworkTextMeans(w.text, value.text);
          }
        case BooleanType => assert value.Bool?;
      }
    } else {
      WrongTypeNeverConforms(w, node, value);
    }
  }

  lemma WrongTypeNeverConforms(w: Walk, node: SchemaNode, value: Value)
    requires ValidSchemaNode(node) && !TypeAccepts(node, SemanticType(node).value, ValueType(value))
    ensures !Conforms(w, node, value)
  {
    if SemanticType(node).value == IpNetworkType {
      assert node.format.Some? && node.format.value == Ipv4Cidr;
    }
  }

  lemma RangeErrorsMean(w: Walk, node: SchemaNode, value: Value, path: string)
    requires ValueType(value) == IntegerType
    ensures RangeErrors(w, node, value, path) == [] <==> InRange(node, IntegerValue(value))
  {
  }

  lemma {:induction false} ItemErrors(w: Walk, node: SchemaNode, items: seq<Value>, path: string, index: nat)
    requires ValidSchemaNode(node)
    ensures WalkItems(w, node, items, path, index) == [] <==> forall v | v in items :: Conforms(w, node, v)
    decreases items
  {
    if items != [] {
      NodeErrors(w, node, items[0], ItemPath(path, index));
      ItemErrors(w, node, items[1..], path, index + 1);
      assert items == [items[0]] + items[1..];
    }
  }

  lemma {:induction false} EntryErrors(w: Walk, node: SchemaNode, entry: Entry<Value>, prefix: string,
                                       ignored: seq<string>)
    requires ValidSchemaNode(node)
    ensures WalkEntry(w, node, entry, prefix, ignored) == [] <==> ConformsEntry(w, node, entry, ignored)
    decreases entry
  {
    var property := Property(node, entry.key);
    if entry.key !in ignored && property.Some? {
      NodeErrors(w, property.value, entry.value, JoinPath(prefix, entry.key));
    }
  }

  lemma {:induction false} EntriesErrors(w: Walk, node: SchemaNode, fields: Fields, prefix: string,
                                         ignored: seq<string>)
    requires ValidSchemaNode(node)
    ensures WalkEntries(w, node, fields, prefix, ignored) == []
      <==> forall e | e in fields :: ConformsEntry(w, node, e, ignored)
    decreases fields, 0
  {
    if fields != [] {
      EntryErrors(w, node, fields[0], prefix, ignored);
      EntriesErrors(w, node, fields[1..], prefix, ignored);
      assert fields == [fields[0]] + fields[1..];
    }
  }

  lemma {:induction false} MissingErrors(w: Walk, required: seq<string>, fields: Fields, prefix: string,
                                         ignored: seq<string>)
    ensures MissingFields(w, required, fields, prefix, ignored) == []
       <==> forall k | k in required && k !in ignored :: Has(fields, k)
  {
    if required != [] {
      MissingErrors(w, required[1..], fields, prefix, ignored);
      assert required == [required[0]] + required[1..];
    }
  }

  lemma {:induction false} FieldErrors(w: Walk, node: SchemaNode, fields: Fields, prefix: string, ignored: seq<string>)
    requires ValidSchemaNode(node)
    ensures WalkMap(w, node, fields, prefix, ignored) == [] <==> ConformsFields(w, node, fields, ignored)
    decreases fields, 1
  {
    EntriesErrors(w, node, fields, prefix, ignored);
    MissingErrors(w, node.required, fields, prefix, ignored);
  }

  lemma FragmentErrorsMean(registry: SchemaRegistry, f: Fragment, state: State, writableOnly: bool)
    requires ValidFragment(f)
    ensures FragmentErrors(registry, f, state, writableOnly) == []
      <==> ConformsFragment(registry, f, state, writableOnly)
  {
    var w := Walk(registry.text, f.name, writableOnly);
    match f.triggerKey {
      case None =>
        FieldErrors(w, f.root, state.fields, "", TriggerKeys(registry.fragments));
        var node := Property(f.root, "type").value;
        NodeErrors(w.(writableOnly := false), node, String(state.deviceType), "type");
        NodeErrors(w, node, String(state.deviceType), "type");
      case Some(key) =>
        match Get(state.fields, key) {
          case Some(value) =>
            if value.Map? {
              FieldErrors(w, f.root, value.entries, key, []);
            }
          case None =>
        }
    }
  }

  lemma {:induction false} ValidateFromMeans(registry: SchemaRegistry, fragments: seq<Fragment>, state: State,
                                             writableOnly: bool)
    requires forall f | f in fragments :: ValidFragment(f)
    ensures ValidateFrom(registry, fragments, state, writableOnly) == []
       <==> forall f | f in fragments :: ConformsFragment(registry, f, state, writableOnly)
  {
    if fragments != [] {
      FragmentErrorsMean(registry, fragments[0], state, writableOnly);
      ValidateFromMeans(registry, fragments[1..], state, writableOnly);
      assert fragments == [fragments[0]] + fragments[1..];
    }
  }

  /** Validation returns no errors exactly for conforming states, in both modes. */
  lemma ValidatorIsCorrect(registry: SchemaRegistry, state: State)
    requires ValidRegistry(registry)
    ensures Validate(registry, state) == [] <==> ConformsState(registry, state, false)
    ensures ValidateWritable(registry, state) == [] <==> ConformsState(registry, state, true)
  {
    ValidateFromMeans(registry, registry.fragments, state, false);
    ValidateFromMeans(registry, registry.fragments, state, true);
  }

  // ---------------------------------------------------------------- the two modes

  /** The list without its read-only errors. */
  function Tolerated(errors: seq<ValidationError>): seq<ValidationError> {
    if errors == [] then []
    else (if errors[0].ReadOnlyField? then [] else [errors[0]]) + Tolerated(errors[1..])
  }

  lemma {:induction false} ToleratedConcat(a: seq<ValidationError>, b: seq<ValidationError>)
    ensures Tolerated(a + b) == Tolerated(a) + Tolerated(b)
  {
    if a == [] {
      assert a + b == b;
    } else {
      assert (a + b)[1..] == a[1..] + b;
      ToleratedConcat(a[1..], b);
    }
  }

  function Reading(w: Walk): Walk {
    w.(writableOnly := false)
  }

  lemma {:induction false} NodeModes(w: Walk, node: SchemaNode, value: Value, path: string)
    requires ValidSchemaNode(node)
    ensures Tolerated(WalkNode(w, node, value, path)) == WalkNode(Reading(w), node, value, path)
    decreases value, 0
  {
    var expected := SemanticType(node).value;
    if TypeAccepts(node, expected, ValueType(value)) {
      match expected {
        case ObjectType => FieldModes(w, node, value.entries, path, []);
        case ArrayType =>
          if node.items.Some? {
            ItemModes(w, node.items.value, value.items, path, 0);
          }
        case IntegerType => RangeModes(w, node, value, path);
        case _ =>
      }
    }
  }

  lemma RangeModes(w: Walk, node: SchemaNode, value: Value, path: string)
    requires ValueType(value) == IntegerType
    ensures Tolerated(RangeErrors(w, node, value, path)) == RangeErrors(Reading(w), node, value, path)
  {
    var error := OutOfRange(w.fragment, path, node.minimum, node.maximum);
    ToleratedConcat([error], [error]);
    assert Tolerated([error]) == [error];
  }

  lemma {:induction false} PropertyModes(w: Walk, node: SchemaNode, value: Value, path: string)
    requires ValidSchemaNode(node)
    ensures Tolerated(WalkProperty(w, node, value, path)) == WalkProperty(Reading(w), node, value, path)
    decreases value, 1
  {
    NodeModes(w, node, value, path);
    var own := if w.writableOnly && !node.writable then [ReadOnlyField(w.fragment, path)] else [];
    ToleratedConcat(own, WalkNode(w, node, value, path));
    assert Tolerated(own) == [];
  }

  lemma {:induction false} ItemModes(w: Walk, node: SchemaNode, items: seq<Value>, path: string, index: nat)
    requires ValidSchemaNode(node)
    ensures Tolerated(WalkItems(w, node, items, path, index)) == WalkItems(Reading(w), node, items, path, index)
    decreases items
  {
    if items != [] {
      NodeModes(w, node, items[0], ItemPath(path, index));
      ItemModes(w, node, items[1..], path, index + 1);
      ToleratedConcat(WalkNode(w, node, items[0], ItemPath(path, index)),
                      WalkItems(w, node, items[1..], path, index + 1));
    }
  }

  lemma {:induction false} EntryModes(w: Walk, node: SchemaNode, entry: Entry<Value>, prefix: string,
                                      ignored: seq<string>)
    requires ValidSchemaNode(node)
    ensures Tolerated(WalkEntry(w, node, entry, prefix, ignored)) == WalkEntry(Reading(w), node, entry, prefix, ignored)
    decreases entry
  {
    var property := Property(node, entry.key);
    if entry.key !in ignored && property.Some? {
      PropertyModes(w, property.value, entry.value, JoinPath(prefix, entry.key));
    }
  }

  lemma {:induction false} EntriesModes(w: Walk, node: SchemaNode, fields: Fields, prefix: string, ignored: seq<string>)
    requires ValidSchemaNode(node)
    ensures Tolerated(WalkEntries(w, node, fields, prefix, ignored))
      == WalkEntries(Reading(w), node, fields, prefix, ignored)
    decreases fields, 0
  {
    if fields != [] {
      EntryModes(w, node, fields[0], prefix, ignored);
      EntriesModes(w, node, fields[1..], prefix, ignored);
      ToleratedConcat(WalkEntry(w, node, fields[0], prefix, ignored),
                      WalkEntries(w, node, fields[1..], prefix, ignored));
    }
  }

  lemma {:induction false} MissingModes(w: Walk, required: seq<string>, fields: Fields, prefix: string,
                                        ignored: seq<string>)
    ensures Tolerated(MissingFields(w, required, fields, prefix, ignored))
      == MissingFields(Reading(w), required, fields, prefix, ignored)
  {
    if required != [] {
      MissingModes(w, required[1..], fields, prefix, ignored);
      var own := if !Has(fields, required[0]) && required[0] !in ignored
                 then [MissingField(w.fragment, JoinPath(prefix, required[0]))] else [];
      ToleratedConcat(own, MissingFields(w, required[1..], fields, prefix, ignored));
    }
  }

  lemma {:induction false} FieldModes(w: Walk, node: SchemaNode, fields: Fields, prefix: string, ignored: seq<string>)
    requires ValidSchemaNode(node)
    ensures Tolerated(WalkMap(w, node, fields, prefix, ignored)) == WalkMap(Reading(w), node, fields, prefix, ignored)
    decreases fields, 1
  {
    EntriesModes(w, node, fields, prefix, ignored);
    MissingModes(w, node.required, fields, prefix, ignored);
    ToleratedConcat(WalkEntries(w, node, fields, prefix, ignored),
                    MissingFields(w, node.required, fields, prefix, ignored));
  }

  lemma FragmentModes(registry: SchemaRegistry, f: Fragment, state: State)
    requires ValidFragment(f)
    ensures Tolerated(FragmentErrors(registry, f, state, true)) == FragmentErrors(registry, f, state, false)
  {
    var w := Walk(registry.text, f.name, true);
    match f.triggerKey {
      case None =>
        var ignored := TriggerKeys(registry.fragments);
        FieldModes(w, f.root, state.fields, "", ignored);
        if state.deviceType != "" {
          var node := Property(f.root, "type").value;
          PropertyModes(Reading(w), node, String(state.deviceType), "type");
          ToleratedConcat(WalkMap(w, f.root, state.fields, "", ignored),
                          WalkProperty(Reading(w), node, String(state.deviceType), "type"));
        } else {
          ToleratedConcat(WalkMap(w, f.root, state.fields, "", ignored), []);
        }
      case Some(key) =>
        match Get(state.fields, key) {
          case Some(value) =>
            if value.Map? {
              FieldModes(w, f.root, value.entries, key, []);
            }
          case None =>
        }
    }
  }

  lemma {:induction false} ValidateModes(registry: SchemaRegistry, fragments: seq<Fragment>, state: State)
    requires forall f | f in fragments :: ValidFragment(f)
    ensures Tolerated(ValidateFrom(registry, fragments, state, true)) == ValidateFrom(registry, fragments, state, false)
  {
    if fragments != [] {
      FragmentModes(registry, fragments[0], state);
      ValidateModes(registry, fragments[1..], state);
      ToleratedConcat(FragmentErrors(registry, fragments[0], state, true),
                      ValidateFrom(registry, fragments[1..], state, true));
    }
  }

  /** Deleting the read-only errors of the writable mode yields the errors of the reading mode, in order. */
  lemma ModesDifferByReadOnlyErrors(registry: SchemaRegistry, state: State)
    requires ValidRegistry(registry)
    ensures Tolerated(ValidateWritable(registry, state)) == Validate(registry, state)
  {
    ValidateModes(registry, registry.fragments, state);
  }
}
