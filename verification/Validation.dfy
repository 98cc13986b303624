/** The validator as the program runs it: one growing list of errors (schema.rs). */
module Validation {
  import opened OrderedMaps
  import opened Values
  import Schemas
  import opened Conformance

  class Validator {
    const w: Schemas.Walk
    var errors: seq<Schemas.ValidationError>

    constructor (w: Schemas.Walk, errors: seq<Schemas.ValidationError>)
      ensures this.w == w && this.errors == errors
    {
      this.w := w;
      this.errors := errors;
    }

    method WalkMap(node: Schemas.SchemaNode, fields: Fields, prefix: string, ignored: seq<string>)
      requires Schemas.ValidSchemaNode(node)
      modifies this
      ensures errors == old(errors) + Schemas.WalkMap(w, node, fields, prefix, ignored)
      decreases fields, 2
    {
      WalkEntries(node, fields, prefix, ignored);
      ReportMissing(node.required, fields, prefix, ignored);
    }

    method WalkEntries(node: Schemas.SchemaNode, fields: Fields, prefix: string, ignored: seq<string>)
      requires Schemas.ValidSchemaNode(node)
      modifies this
      ensures errors == old(errors) + Schemas.WalkEntries(w, node, fields, prefix, ignored)
      decreases fields, 1
    {
      hide Schemas.WalkEntry, Schemas.ValidSchemaNode;
      for i := 0 to |fields|
        invariant errors + Schemas.WalkEntries(w, node, fields[i..], prefix, ignored)
               == old(errors) + Schemas.WalkEntries(w, node, fields, prefix, ignored)
      {
        assert fields[i..][0] == fields[i] && fields[i..][1..] == fields[i + 1..];
        WalkEntry(node, fields[i], prefix, ignored);
      }
    }

    /** One pass of the loop over a map's entries. */
    method WalkEntry(node: Schemas.SchemaNode, entry: Entry<Value>, prefix: string, ignored: seq<string>)
      requires Schemas.ValidSchemaNode(node)
      modifies this
      ensures errors == old(errors) + Schemas.WalkEntry(w, node, entry, prefix, ignored)
      decreases entry
    {
      hide Schemas.WalkNode, Schemas.WalkProperty, Schemas.JoinPath, Schemas.ValidSchemaNode;
      if entry.key !in ignored {
        var property := Schemas.Property(node, entry.key);
        if property.Some? {
          Schemas.PropertyIsValid(node, entry.key);
          WalkProperty(property.value, entry.value, Schemas.JoinPath(prefix, entry.key));
        } else if !node.additionalProperties {
          errors := errors + [Schemas.UnknownField(w.fragment, Schemas.JoinPath(prefix, entry.key))];
        }
      }
    }

    method ReportMissing(names: seq<string>, fields: Fields, prefix: string, ignored: seq<string>)
      modifies this
      ensures errors == old(errors) + Schemas.MissingFields(w, names, fields, prefix, ignored)
    {
      for i := 0 to |names|
        invariant errors + Schemas.MissingFields(w, names[i..], fields, prefix, ignored)
               == old(errors) + Schemas.MissingFields(w, names, fields, prefix, ignored)
      {
        assert names[i..][0] == names[i] && names[i..][1..] == names[i + 1..];
        if !Has(fields, names[i]) && names[i] !in ignored {
          errors := errors + [Schemas.MissingField(w.fragment, Schemas.JoinPath(prefix, names[i]))];
        }
      }
    }

    method WalkProperty(node: Schemas.SchemaNode, value: Value, path: string)
      requires Schemas.ValidSchemaNode(node)
      modifies this
      ensures errors == old(errors) + Schemas.WalkProperty(w, node, value, path)
      decreases value, 1
    {
      if w.writableOnly && !node.writable {
        errors := errors + [Schemas.ReadOnlyField(w.fragment, path)];
      }
      WalkNode(node, value, path);
    }

    method WalkNode(node: Schemas.SchemaNode, value: Value, path: string)
      requires Schemas.ValidSchemaNode(node)
      modifies this
      ensures errors == old(errors) + Schemas.WalkNode(w, node, value, path)
      decreases value, 0
    {
      var expected, found := Schemas.SemanticType(node).value, Schemas.ValueType(value);
      if !Schemas.TypeAccepts(node, expected, found) {
        errors := errors + [Schemas.WrongType(w.fragment, path, expected, found)];
        return;
      }
      match expected {
        case IntegerType =>
          var actual := Schemas.IntegerValue(value);
          if node.minimum.Some? && actual < node.minimum.value {
            errors := errors + [Schemas.OutOfRange(w.fragment, path, node.minimum, node.maximum)];
          }
          if node.maximum.Some? && actual > node.maximum.value {
            errors := errors + [Schemas.OutOfRange(w.fragment, path, node.minimum, node.maximum)];
          }
        case StringType =>
          if value.String? && node.allowed.Some? && value.text !in node.allowed.value {
            errors := errors + [Schemas.EnumViolation(w.fragment, path, node.allowed.value)];
          }
        case IpNetworkType =>
          if !Schemas.IsIpv4Cidr(w.text, value) {
            errors := errors + [Schemas.InvalidFormat(w.fragment, path)];
          }
        case ObjectType => WalkMap(node, value.entries, path, []);
        case ArrayType =>
          if node.items.Some? {
            WalkItems(node.items.value, value.items, path);
          }
        case _ =>
      }
    }

    method WalkItems(node: Schemas.SchemaNode, items: seq<Value>, path: string)
      requires Schemas.ValidSchemaNode(node)
      modifies this
      ensures errors == old(errors) + Schemas.WalkItems(w, node, items, path, 0)
      decreases items
    {
      for index := 0 to |items|
        invariant errors + Schemas.WalkItems(w, node, items[index..], path, index)
               == old(errors) + Schemas.WalkItems(w, node, items, path, 0)
      {
        assert items[index..][0] == items[index] && items[index..][1..] == items[index + 1..];
        WalkNode(node, items[index], Schemas.ItemPath(path, index));
      }
    }
  }

  /** One fragment's share of the errors. */
  method ValidateFragment(registry: Schemas.SchemaRegistry, f: Schemas.Fragment, state: State, writableOnly: bool,
                          before: seq<Schemas.ValidationError>) returns (errors: seq<Schemas.ValidationError>)
    requires Schemas.ValidFragment(f)
    ensures errors == before + Schemas.FragmentErrors(registry, f, state, writableOnly)
  {
    hide Schemas.WalkMap, Schemas.WalkProperty, Schemas.ValidSchemaNode;
    var validator := new Validator(Schemas.Walk(registry.text, f.name, writableOnly), before);
    match f.triggerKey {
      case None =>
        validator.WalkMap(f.root, state.fields, "", Schemas.TriggerKeys(registry.fragments));
        errors := validator.errors;
        if state.deviceType != "" {
          // The device type is metadata, so it is never rejected as read-only.
          Schemas.PropertyIsValid(f.root, "type");
          var metadata := new Validator(Schemas.Walk(registry.text, f.name, false), errors);
          metadata.WalkProperty(Schemas.Property(f.root, "type").value, String(state.deviceType), "type");
          errors := metadata.errors;
        }
      case Some(key) =>
        errors := before;
        var found := Get(state.fields, key);
        if found.Some? {
          if found.value.Map? {
            validator.WalkMap(f.root, found.value.entries, key, []);
            errors := validator.errors;
          } else {
            errors := errors + [Schemas.WrongType(f.name, key, Schemas.ObjectType, Schemas.ValueType(found.value))];
          }
        }
    }
  }

  /** Collect every violation, fragment by fragment. */
  method ValidateInner(registry: Schemas.SchemaRegistry, state: State, writableOnly: bool)
    returns (errors: seq<Schemas.ValidationError>)
    requires Schemas.ValidRegistry(registry)
    ensures errors == Schemas.ValidateFrom(registry, registry.fragments, state, writableOnly)
    ensures errors == [] <==> ConformsState(registry, state, writableOnly)
  {
    hide Schemas.FragmentErrors, ConformsFragment;
    errors := [];
    var fragments := registry.fragments;
    for i := 0 to |fragments|
      invariant errors + Schemas.ValidateFrom(registry, fragments[i..], state, writableOnly)
             == Schemas.ValidateFrom(registry, fragments, state, writableOnly)
    {
      assert fragments[i..][0] == fragments[i] && fragments[i..][1..] == fragments[i + 1..];
      assert fragments[i] in fragments;
      errors := ValidateFragment(registry, fragments[i], state, writableOnly, errors);
    }
    ValidateFromMeans(registry, fragments, state, writableOnly);
  }
}
