/** Removal of read-only fields, and exactly when the result can be set (schema.rs). */
module Stripper {
  import opened Wrappers
  import opened OrderedMaps
  import opened Values
  import opened Schemas
  import opened Conformance

  // ---------------------------------------------------------------- what remains

  function StripValue(node: SchemaNode, value: Value): Value
    decreases value
  {
    match value
    case Map(entries) => Map(StripFields(node, entries))
    case List(items) => if node.items.Some? then List(StripItems(node.items.value, items)) else value
    case _ => value
  }

  /** Only items that are maps are stripped: an array inside an array is left alone. */
  function StripItem(node: SchemaNode, item: Value): Value
    decreases item
  {
    if item.Map? then Map(StripFields(node, item.entries)) else item
  }

  function StripItems(node: SchemaNode, items: seq<Value>): seq<Value>
    decreases items
  {
    if items == [] then [] else [StripItem(node, items[0])] + StripItems(node, items[1..])
  }

  function StripEntry(node: SchemaNode, entry: Entry<Value>): Fields
    decreases entry
  {
    match Property(node, entry.key)
    case None => [entry]
    case Some(property) =>
      if property.writable then [Entry(entry.key, StripValue(property, entry.value))] else []
  }

  function StripFields(node: SchemaNode, fields: Fields): Fields
    decreases fields
  {
    if fields == [] then [] else StripEntry(node, fields[0]) + StripFields(node, fields[1..])
  }

  // ---------------------------------------------------------------- what is reported

  function RemovedFromValue(node: SchemaNode, value: Value, path: string): seq<string>
    decreases value
  {
    match value
    case Map(entries) => RemovedFields(node, entries, path)
    case List(items) => if node.items.Some? then RemovedFromItems(node.items.value, items, path, 0) else []
    case _ => []
  }

  function RemovedFromItem(node: SchemaNode, item: Value, path: string): seq<string>
    decreases item
  {
    if item.Map? then RemovedFields(node, item.entries, path) else []
  }

  function RemovedFromItems(node: SchemaNode, items: seq<Value>, path: string, index: nat): seq<string>
    decreases items
  {
    if items == [] then []
    else RemovedFromItem(node, items[0], ItemPath(path, index)) + RemovedFromItems(node, items[1..], path, index + 1)
  }

  function RemovedEntry(node: SchemaNode, entry: Entry<Value>, prefix: string): seq<string>
    decreases entry
  {
    var path := JoinPath(prefix, entry.key);
    match Property(node, entry.key)
    case None => []
    case Some(property) => if property.writable then RemovedFromValue(property, entry.value, path) else [path]
  }

  function RemovedFields(node: SchemaNode, fields: Fields, prefix: string): seq<string>
    decreases fields
  {
    if fields == [] then [] else RemovedEntry(node, fields[0], prefix) + RemovedFields(node, fields[1..], prefix)
  }

  // ---------------------------------------------------------------- stripping a prefix

  lemma StripNone(node: SchemaNode, prefix: string)
    ensures StripFields(node, []) == [] && RemovedFields(node, [], prefix) == []
  {
  }

  lemma {:induction false} StripConcat(node: SchemaNode, a: Fields, b: Fields)
    ensures StripFields(node, a + b) == StripFields(node, a) + StripFields(node, b)
  {
    hide StripEntry;
    if a == [] {
      assert a + b == b;
    } else {
      StripConcat(node, a[1..], b);
      assert (a + b)[1..] == a[1..] + b;
    }
  }

  lemma {:induction false} StrippedKeys(node: SchemaNode, fields: Fields, key: string)
    requires forall e | e in fields :: e.key != key
    ensures forall e | e in StripFields(node, fields) :: e.key != key
  {
    if fields != [] {
      StrippedKeys(node, fields[1..], key);
    }
  }

  // ---------------------------------------------------------------- removal in place

  /** One removal run: maps are edited key by key while the removed paths accumulate. */
  class Remover {
    var removed: seq<string>

    constructor ()
      ensures removed == []
    {
      removed := [];
    }

    /** Edit one property of a map in which its key is present. */
    method FromProperty(node: SchemaNode, fields: Fields, key: string, prefix: string) returns (result: Fields)
      requires Has(fields, key) && WellFormed(Get(fields, key).value)
      modifies this
      ensures result == if node.writable then Insert(fields, key, StripValue(node, Get(fields, key).value))
                        else Remove(fields, key)
      ensures removed == old(removed) + (
                if node.writable then RemovedFromValue(node, Get(fields, key).value, JoinPath(prefix, key))
                else [JoinPath(prefix, key)])
      decreases Get(fields, key).value, 2
    {
      var path, value := JoinPath(prefix, key), Get(fields, key).value;
      if !node.writable {
        result := Remove(fields, key);
        removed := removed + [path];
      } else if value.Map? {
        var entries := FromMap(node, value.entries, path);
        result := Insert(fields, key, Map(entries));
      } else if value.List? && node.items.Some? {
        var items := FromItems(node.items.value, value.items, path);
        result := Insert(fields, key, List(items));
      } else {
        result := fields;
        InsertSame(fields, key);
      }
    }

    method FromItems(node: SchemaNode, items: seq<Value>, path: string) returns (result: seq<Value>)
      requires forall v | v in items :: WellFormed(v)
      modifies this
      ensures result == StripItems(node, items)
      ensures removed == old(removed) + RemovedFromItems(node, items, path, 0)
      decreases items, 1
    {
      hide StripItem, RemovedFromItem, WellFormed, ItemPath;
      result := [];
      for index := 0 to |items|
        invariant result + StripItems(node, items[index..]) == StripItems(node, items)
        invariant removed + RemovedFromItems(node, items[index..], path, index)
               == old(removed) + RemovedFromItems(node, items, path, 0)
      {
        assert items[index..][0] == items[index] && items[index..][1..] == items[index + 1..];
        assert items[index] in items;
        var item := FromItem(node, items[index], ItemPath(path, index));
        result := result + [item];
      }
    }

    method FromItem(node: SchemaNode, item: Value, path: string) returns (result: Value)
      requires WellFormed(item)
      modifies this
      ensures result == StripItem(node, item)
      ensures removed == old(removed) + RemovedFromItem(node, item, path)
      decreases item, 1
    {
      result := item;
      if item.Map? {
        var entries := FromMap(node, item.entries, path);
        result := Map(entries);
      }
    }

    /** Edit whatever the map holds at one of its keys. */
    method FromKey(node: SchemaNode, fields: Fields, key: string, prefix: string,
                   ghost before: Fields, ghost value: Value, ghost after: Fields) returns (result: Fields)
      requires fields == before + [Entry(key, value)] + after
      requires WellFormed(value) && forall e | e in before :: e.key != key
      modifies this
      ensures result == before + StripEntry(node, Entry(key, value)) + after
      ensures removed == old(removed) + RemovedEntry(node, Entry(key, value), prefix)
      decreases value, 3
    {
      hide RemovedFromValue, StripValue, Get, Remove, Insert, WellFormed;
      var property := Property(node, key);
      GetMiddle(before, Entry(key, value), after);
      RemoveMiddle(before, Entry(key, value), after);
      if property.Some? {
        InsertMiddle(before, Entry(key, value), after, StripValue(property.value, value));
        result := FromProperty(property.value, fields, key, prefix);
        assert before + [] + after == before + after;
      } else {
        result := fields;
      }
    }

    method FromMap(node: SchemaNode, fields: Fields, prefix: string) returns (result: Fields)
      requires WellFormedFields(fields)
      modifies this
      ensures result == StripFields(node, fields)
      ensures removed == old(removed) + RemovedFields(node, fields, prefix)
      decreases fields, 1
    {
      hide RemovedEntry, RemovedFields, StripEntry, StripFields, WellFormedFields, WellFormed;
      result := fields;
      StripNone(node, prefix);
      for i := 0 to |fields|
        invariant result == StripFields(node, fields[..i]) + fields[i..]
        invariant removed + RemovedFields(node, fields[i..], prefix)
               == old(removed) + RemovedFields(node, fields, prefix)
      {
        Cursor(node, fields, i, prefix);
        result := FromKey(node, result, fields[i].key, prefix, StripFields(node, fields[..i]), fields[i].value,
                          fields[i + 1..]);
      }
      assert fields[..|fields|] == fields;
    }
  }

  /** Editing the entry at the cursor advances the stripped part by one entry. */
  lemma Cursor(node: SchemaNode, fields: Fields, i: nat, prefix: string)
    requires i < |fields| && WellFormedFields(fields)
    ensures fields[i..] == [fields[i]] + fields[i + 1..]
    ensures WellFormed(fields[i].value)
    ensures RemovedFields(node, fields[i..], prefix)
         == RemovedEntry(node, Entry(fields[i].key, fields[i].value), prefix)
           + RemovedFields(node, fields[i + 1..], prefix)
    ensures forall e | e in StripFields(node, fields[..i]) :: e.key != fields[i].key
    ensures StripFields(node, fields[..i + 1]) == StripFields(node, fields[..i]) + StripEntry(node, fields[i])
    ensures StripFields(node, fields[..i]) + fields[i..]
         == StripFields(node, fields[..i]) + [Entry(fields[i].key, fields[i].value)] + fields[i + 1..]
  {
    hide StripEntry, RemovedEntry, WellFormed;
    assert fields[i..][1..] == fields[i + 1..];
    assert fields[i] in fields;
    forall x | x in fields[..i] ensures x.key != fields[i].key {
      var j :| 0 <= j < i && fields[j] == x;
    }
    StrippedKeys(node, fields[..i], fields[i].key);
    assert fields[..i + 1] == fields[..i] + [fields[i]];
    StripConcat(node, fields[..i], [fields[i]]);
    assert StripFields(node, [fields[i]]) == StripEntry(node, fields[i]) + StripFields(node, []);
  }

  // ---------------------------------------------------------------- removal happens once

  lemma {:induction false} ValueKept(node: SchemaNode, value: Value, path: string)
    ensures RemovedFromValue(node, value, path) == [] <==> StripValue(node, value) == value
    decreases value, 0
  {
    match value {
      case Map(entries) => NothingRemoved(node, entries, path);
      case List(items) =>
        if node.items.Some? {
          ItemsKept(node.items.value, items, path, 0);
        }
      case _ =>
    }
  }

  lemma {:induction false} ItemsKept(node: SchemaNode, items: seq<Value>, path: string, index: nat)
    ensures RemovedFromItems(node, items, path, index) == [] <==> StripItems(node, items) == items
    decreases items, 0
  {
    if items != [] {
      if items[0].Map? {
        NothingRemoved(node, items[0].entries, ItemPath(path, index));
      }
      ItemsKept(node, items[1..], path, index + 1);
      assert items == [items[0]] + items[1..];
      assert StripItems(node, items)[0] == StripItem(node, items[0]);
      assert StripItems(node, items)[1..] == StripItems(node, items[1..]);
    }
  }

  lemma {:induction false} EntryKept(node: SchemaNode, entry: Entry<Value>, prefix: string)
    ensures RemovedEntry(node, entry, prefix) == [] <==> StripEntry(node, entry) == [entry]
    decreases entry
  {
    var property := Property(node, entry.key);
    if property.Some? && property.value.writable {
      ValueKept(property.value, entry.value, JoinPath(prefix, entry.key));
    }
  }

  lemma {:induction false} StripNeverGrows(node: SchemaNode, fields: Fields)
    ensures |StripFields(node, fields)| <= |fields|
  {
    if fields != [] {
      StripNeverGrows(node, fields[1..]);
    }
  }

  /** A map loses or changes an entry exactly when a path is reported. */
  lemma {:induction false} NothingRemoved(node: SchemaNode, fields: Fields, prefix: string)
    ensures RemovedFields(node, fields, prefix) == [] <==> StripFields(node, fields) == fields
    decreases fields, 1
  {
    hide StripEntry, RemovedEntry;
    if fields != [] {
      EntryKept(node, fields[0], prefix);
      NothingRemoved(node, fields[1..], prefix);
      StripNeverGrows(node, fields[1..]);
      var head, tail := StripEntry(node, fields[0]), StripFields(node, fields[1..]);
      AtMostOne(node, fields[0]);
      assert fields == [fields[0]] + fields[1..];
      if head + tail == fields {
        assert |head| == 1;
        assert head[0] == (head + tail)[0] && tail == (head + tail)[1..];
      }
    }
  }

  lemma AtMostOne(node: SchemaNode, entry: Entry<Value>)
    ensures |StripEntry(node, entry)| <= 1
    ensures forall e | e in StripEntry(node, entry) :: e.key == entry.key
  {
  }

  lemma {:induction false} ValueStripTwice(node: SchemaNode, value: Value)
    ensures StripValue(node, StripValue(node, value)) == StripValue(node, value)
    decreases value, 0
  {
    match value {
      case Map(entries) => StripTwice(node, entries);
      case List(items) =>
        if node.items.Some? {
          ItemsStripTwice(node.items.value, items);
        }
      case _ =>
    }
  }

  lemma {:induction false} ItemsStripTwice(node: SchemaNode, items: seq<Value>)
    ensures StripItems(node, StripItems(node, items)) == StripItems(node, items)
    decreases items, 0
  {
    if items != [] {
      if items[0].Map? {
        StripTwice(node, items[0].entries);
      }
      ItemsStripTwice(node, items[1..]);
      assert StripItems(node, items)[1..] == StripItems(node, items[1..]);
    }
  }

  /** What removal leaves, removal leaves alone: it reports nothing the second time. */
  lemma {:induction false} StripTwice(node: SchemaNode, fields: Fields)
    ensures StripFields(node, StripFields(node, fields)) == StripFields(node, fields)
    ensures forall prefix :: RemovedFields(node, StripFields(node, fields), prefix) == []
    decreases fields, 1
  {
    if fields != [] {
      StripTwice(node, fields[1..]);
      EntryStripTwice(node, fields[0]);
      StripConcat(node, StripEntry(node, fields[0]), StripFields(node, fields[1..]));
    }
    forall prefix ensures RemovedFields(node, StripFields(node, fields), prefix) == [] {
      NothingRemoved(node, StripFields(node, fields), prefix);
    }
  }

  lemma {:induction false} EntryStripTwice(node: SchemaNode, entry: Entry<Value>)
    ensures StripFields(node, StripEntry(node, entry)) == StripEntry(node, entry)
    decreases entry
  {
    var property := Property(node, entry.key);
    var left := StripEntry(node, entry);
    if property.Some? && property.value.writable {
      ValueStripTwice(property.value, entry.value);
    }
    if left != [] {
      assert left[1..] == [];
      assert StripEntry(node, left[0]) == left;
    }
  }

  // ---------------------------------------------------------------- when the remains can be set

  /** A field of this name is left in place: its schema does not make it read-only. */
  ghost predicate StaysIn(node: SchemaNode, key: string) {
    Property(node, key).Some? ==> Property(node, key).value.writable
  }

  /** No part of the value, at any depth, is read-only. */
  ghost predicate Settable(node: SchemaNode, value: Value)
    decreases value
  {
    match value
    case Map(entries) => forall e | e in entries :: Property(node, e.key).Some? ==>
        Property(node, e.key).value.writable && Settable(Property(node, e.key).value, e.value)
    case List(items) => node.items.Some? ==> forall v | v in items :: Settable(node.items.value, v)
    case _ => true
  }

  /**
   Removal leaves something settable: it takes away no required field, and
   finds no read-only field inside an array of arrays, which it does not enter.
   */
  ghost predicate Clean(node: SchemaNode, value: Value)
    decreases value
  {
    match value
    case Map(entries) => CleanFields(node, entries)
    case List(items) => node.items.Some? ==> forall v | v in items :: CleanItem(node.items.value, v)
    case _ => true
  }

  ghost predicate CleanItem(node: SchemaNode, item: Value)
    decreases item
  {
    if item.Map? then CleanFields(node, item.entries) else Settable(node, item)
  }

  ghost predicate CleanFields(node: SchemaNode, fields: Fields)
    decreases fields
  {
    forall e | e in fields :: CleanEntry(node, e)
  }

  ghost predicate CleanEntry(node: SchemaNode, entry: Entry<Value>)
    decreases entry
  {
    match Property(node, entry.key)
    case None => true
    case Some(property) => if property.writable then Clean(property, entry.value) else entry.key !in node.required
  }

  lemma {:induction false} SettableExact(w: Walk, node: SchemaNode, value: Value)
    requires ValidSchemaNode(node) && w.writableOnly && Conforms(Reading(w), node, value)
    ensures Conforms(w, node, value) <==> Settable(node, value)
    decreases value
  {
    match value {
      case Map(entries) =>
        forall e | e in entries
          ensures ConformsEntry(w, node, e, []) <==>
            (Property(node, e.key).Some?
             ==> Property(node, e.key).value.writable && Settable(Property(node, e.key).value, e.value))
        {
          assert ConformsEntry(Reading(w), node, e, []);
          if Property(node, e.key).Some? {
            PropertyIsValid(node, e.key);
            SettableExact(w, Property(node, e.key).value, e.value);
          }
        }
      case List(items) =>
        if node.items.Some? {
          forall v | v in items ensures Conforms(w, node.items.value, v) <==> Settable(node.items.value, v) {
            SettableExact(w, node.items.value, v);
          }
        }
      case _ =>
    }
  }

  /** What remains of a conforming value conforms in the writable mode exactly when the value is clean. */
  lemma {:induction false} StripExact(w: Walk, node: SchemaNode, value: Value)
    requires ValidSchemaNode(node) && w.writableOnly && Conforms(Reading(w), node, value)
    ensures Conforms(w, node, StripValue(node, value)) <==> Clean(node, value)
    decreases value, 0
  {
    match value {
      case Map(entries) => FieldsStripExact(w, node, entries);
      case List(items) =>
        if node.items.Some? {
          ItemsStripExact(w, node.items.value, items);
        }
      case _ =>
    }
  }

  lemma {:induction false} ItemsStripExact(w: Walk, node: SchemaNode, items: seq<Value>)
    requires ValidSchemaNode(node) && w.writableOnly
    requires forall v | v in items :: Conforms(Reading(w), node, v)
    ensures (forall v | v in StripItems(node, items) :: Conforms(w, node, v))
      <==> forall v | v in items :: CleanItem(node, v)
    decreases items, 0
  {
    if items != [] {
      var item := items[0];
      ItemStripExact(w, node, item);
      ItemsStripExact(w, node, items[1..]);
      assert items == [item] + items[1..];
    }
  }

  lemma {:induction false} ItemStripExact(w: Walk, node: SchemaNode, item: Value)
    requires ValidSchemaNode(node) && w.writableOnly && Conforms(Reading(w), node, item)
    ensures Conforms(w, node, StripItem(node, item)) <==> CleanItem(node, item)
    decreases item, 1
  {
    if item.Map? {
      FieldsStripExact(w, node, item.entries);
    } else {
      SettableExact(w, node, item);
    }
  }

  lemma {:induction false} EntryStripExact(w: Walk, node: SchemaNode, entry: Entry<Value>, ignored: seq<string>)
    requires ValidSchemaNode(node) && w.writableOnly && entry.key !in ignored
    requires ConformsEntry(Reading(w), node, entry, ignored)
    ensures (forall e | e in StripEntry(node, entry) :: ConformsEntry(w, node, e, ignored))
      <==> CleanWithin(node, entry)
    decreases entry
  {
    var property := Property(node, entry.key);
    if property.Some? && property.value.writable {
      PropertyIsValid(node, entry.key);
      StripExact(w, property.value, entry.value);
      var left := Entry(entry.key, StripValue(property.value, entry.value));
      assert StripEntry(node, entry) == [left];
      assert ConformsEntry(w, node, left, ignored) <==> Conforms(w, property.value, left.value);
      assert left in StripEntry(node, entry);
    } else if property.None? {
      assert StripEntry(node, entry) == [entry];
    }
  }

  /** The part of cleanness that does not concern required fields. */
  ghost predicate CleanWithin(node: SchemaNode, entry: Entry<Value>)
    decreases entry, 1
  {
    var property := Property(node, entry.key);
    property.Some? && property.value.writable ==> Clean(property.value, entry.value)
  }

  lemma {:induction false} EntriesStripExact(w: Walk, node: SchemaNode, fields: Fields)
    requires ValidSchemaNode(node) && w.writableOnly
    requires forall e | e in fields :: ConformsEntry(Reading(w), node, e, [])
    ensures (forall e | e in StripFields(node, fields) :: ConformsEntry(w, node, e, []))
       <==> forall e | e in fields :: CleanWithin(node, e)
    decreases fields, 0
  {
    hide ConformsEntry, CleanWithin, StripEntry, ValidSchemaNode;
    if fields != [] {
      EntryStripExact(w, node, fields[0], []);
      EntriesStripExact(w, node, fields[1..]);
      assert fields == [fields[0]] + fields[1..];
    }
  }

  lemma {:induction false} HasStripped(node: SchemaNode, fields: Fields, key: string)
    ensures Has(StripFields(node, fields), key) <==> Has(fields, key) && StaysIn(node, key)
  {
    if fields != [] {
      HasStripped(node, fields[1..], key);
      var head := StripEntry(node, fields[0]);
      if head != [] {
        assert (head + StripFields(node, fields[1..]))[1..] == StripFields(node, fields[1..]);
      } else {
        assert head + StripFields(node, fields[1..]) == StripFields(node, fields[1..]);
      }
    }
  }

  lemma {:induction false} FieldsStripExact(w: Walk, node: SchemaNode, fields: Fields)
    requires ValidSchemaNode(node) && w.writableOnly && ConformsFields(Reading(w), node, fields, [])
    ensures ConformsFields(w, node, StripFields(node, fields), []) <==> CleanFields(node, fields)
    decreases fields, 1
  {
    EntriesStripExact(w, node, fields);
    forall k | k in node.required
      ensures Has(StripFields(node, fields), k) <==> StaysIn(node, k)
    {
      assert Has(fields, k);
      HasStripped(node, fields, k);
    }
    RequiredStripExact(node, fields);
  }

  /** With every required field present, none is read-only exactly when no read-only field is required. */
  lemma RequiredStripExact(node: SchemaNode, fields: Fields)
    requires forall k | k in node.required :: Has(fields, k)
    ensures ((forall e | e in fields :: CleanWithin(node, e)) &&
             (forall k | k in node.required :: StaysIn(node, k)))
       <==> CleanFields(node, fields)
  {
    forall e | e in fields && CleanFields(node, fields) ensures CleanWithin(node, e) {
      assert CleanEntry(node, e);
    }
    forall k | k in node.required && CleanFields(node, fields)
      ensures StaysIn(node, k)
    {
      assert Has(fields, k);
      assert CleanEntry(node, Entry(k, Get(fields, k).value));
    }
  }

  // ---------------------------------------------------------------- schemas for which removal always works

  /** No read-only property is required, and no array holds arrays. */
  ghost predicate Strippable(node: SchemaNode) {
    && (forall k | k in node.required :: StaysIn(node, k))
    && (forall e | e in node.properties :: Strippable(e.value))
    && (node.items.Some? ==> node.items.value.fieldType != Some(ArrayType) && Strippable(node.items.value))
  }

  lemma {:induction false} StrippableIsClean(w: Walk, node: SchemaNode, value: Value)
    requires ValidSchemaNode(node) && Strippable(node) && Conforms(w, node, value)
    ensures Clean(node, value)
    decreases value, 0
  {
    match value {
      case Map(entries) => StrippableFieldsAreClean(w, node, entries, []);
      case List(items) =>
        if node.items.Some? {
          forall v | v in items ensures CleanItem(node.items.value, v) {
            if v.Map? {
              StrippableFieldsAreClean(w, node.items.value, v.entries, []);
            } else {
              assert Conforms(w, node.items.value, v);
            }
          }
        }
      case _ =>
    }
  }

  lemma {:induction false} StrippableFieldsAreClean(w: Walk, node: SchemaNode, fields: Fields, ignored: seq<string>)
    requires ValidSchemaNode(node) && Strippable(node) && ConformsFields(w, node, fields, ignored)
    ensures forall e | e in fields && e.key !in ignored :: CleanEntry(node, e)
    decreases fields, 1
  {
    forall e | e in fields && e.key !in ignored ensures CleanEntry(node, e) {
      assert ConformsEntry(w, node, e, ignored);
      var property := Property(node, e.key);
      if property.Some? && property.value.writable {
        PropertyIsValid(node, e.key);
        StrippableIsClean(w, property.value, e.value);
      }
    }
  }
}
