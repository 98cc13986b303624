/** Registries under extension: what every sequence of additions keeps (schema.rs). */
module SchemaRegistries {
  import opened Wrappers
  import opened OrderedMaps
  import opened Values
  import opened Schemas
  import opened Stripper
  import opened Preparation
  import opened PreparationLaws
  import opened SchemaExtension
  import opened FlatLookups
  import opened LookupClaims

  function FragmentIndex(fragments: seq<Fragment>, name: string): (i: nat)
    ensures i <= |fragments|
    ensures i < |fragments| ==> fragments[i].name == name
    ensures forall j | 0 <= j < i :: fragments[j].name != name
  {
    if fragments == [] || fragments[0].name == name then 0 else 1 + FragmentIndex(fragments[1..], name)
  }

  /** A fragment with a new tree and the flat map derived from it. */
  function Regrown(f: Fragment, root: SchemaNode): Fragment
    requires ValidSchemaNode(root)
  {
    f.(root := root, fields := DeriveFields(root, "", []))
  }

  function AddNode(registry: SchemaRegistry, fragment: string, path: string, added: SchemaNode)
    : (SchemaRegistry, Option<ExtensionError>)
    requires ValidRegistry(registry)
  {
    var parts, i := SplitPath(path), FragmentIndex(registry.fragments, fragment);
    if !ValidSchemaNode(added) then (registry, Some(Malformed))
    else if "" in parts then (registry, Some(InvalidPath))
    else if i < |registry.fragments| && registry.fragments[i].triggerKey.None?
      && FindTrigger(registry.fragments, Some(parts[0])).Some? then
      (registry, Some(CollidesWithTrigger(parts[0])))
    else if i == |registry.fragments| then (registry, Some(UnknownFragment(fragment)))
    else
      var f := registry.fragments[i];
      FragmentIsValid(registry, i);
      var grown := AddBelow(f.root, parts, added);
      if grown.error.Some? then (registry, grown.error)
      else
        AddedIsValid(f.root, parts, added);
        (registry.(fragments := registry.fragments[i := Regrown(f, grown.node)]), None)
  }

  class SchemaStore {
    const text: IpText
    var fragments: seq<Fragment>

    constructor (registry: SchemaRegistry)
      ensures Registry() == registry
    {
      text := registry.text;
      fragments := registry.fragments;
    }

    function Registry(): SchemaRegistry
      reads this
    {
      SchemaRegistry(text, fragments)
    }

    /** On every failure the registry is as it was, though the descent edits the tree in place. */
    method AddSchemaNode(fragment: string, path: string, added: SchemaNode) returns (error: Option<ExtensionError>)
      requires ValidRegistry(Registry())
      modifies this
      ensures (Registry(), error) == old(AddNode(Registry(), fragment, path, added))
      ensures error.Some? ==> fragments == old(fragments)
    {
      hide ValidRegistry, DeriveFields, AddBelow;
      if !ValidSchemaNode(added) {
        return Some(Malformed);
      }
      var parts, i := SplitPath(path), FragmentIndex(fragments, fragment);
      if "" in parts {
        return Some(InvalidPath);
      }
      if i < |fragments| && fragments[i].triggerKey.None? && FindTrigger(fragments, Some(parts[0])).Some? {
        return Some(CollidesWithTrigger(parts[0]));
      }
      if i == |fragments| {
        return Some(UnknownFragment(fragment));
      }
      ghost var before := fragments;
      FragmentIsValid(Registry(), i);
      AddedIsValid(fragments[i].root, parts, added);
      var tree;
      tree, error := Descend(fragments[i].root, parts, added);
      fragments := fragments[i := fragments[i].(root := tree)];
      if error.Some? {
        FailureChangesNothing(before[i].root, parts, added);
        assert fragments == before;
        return;
      }
      var fields := DeriveFields(tree, "", []);
      fragments := fragments[i := fragments[i].(fields := fields)];
      assert fragments == before[i := Regrown(before[i], tree)];
    }
  }

  lemma FragmentIsValid(registry: SchemaRegistry, i: nat)
    requires ValidRegistry(registry) && i < |registry.fragments|
    ensures ValidFragment(registry.fragments[i]) && ValidSchemaNode(registry.fragments[i].root)
  {
  }

  // ---------------------------------------------------------------- what one call keeps

  /** Names and triggers decide which fragment is found, and additions keep both. */
  ghost predicate SameShape(a: seq<Fragment>, b: seq<Fragment>) {
    |a| == |b| && forall i | 0 <= i < |a| :: a[i].name == b[i].name && a[i].triggerKey == b[i].triggerKey
  }

  lemma {:induction false} SameTriggerKeys(a: seq<Fragment>, b: seq<Fragment>)
    requires SameShape(a, b)
    ensures TriggerKeys(a) == TriggerKeys(b)
  {
    if a != [] {
      ShapeTail(a, b);
      SameTriggerKeys(a[1..], b[1..]);
    }
  }

  lemma ShapeTail(a: seq<Fragment>, b: seq<Fragment>)
    requires SameShape(a, b) && a != []
    ensures SameShape(a[1..], b[1..]) && a[0].name == b[0].name && a[0].triggerKey == b[0].triggerKey
  {
    forall i | 0 <= i < |a[1..]|
      ensures a[1..][i].name == b[1..][i].name && a[1..][i].triggerKey == b[1..][i].triggerKey
    {
      assert a[i + 1].name == b[i + 1].name;
    }
  }

  function TriggerIndex(fragments: seq<Fragment>, key: Option<string>): (i: nat)
    ensures i <= |fragments|
    ensures i < |fragments| <==> FindTrigger(fragments, key).Some?
    ensures i < |fragments| ==> FindTrigger(fragments, key) == Some(fragments[i]) && fragments[i].triggerKey == key
    ensures forall j | 0 <= j < i :: fragments[j].triggerKey != key
  {
    if fragments == [] || fragments[0].triggerKey == key then 0 else 1 + TriggerIndex(fragments[1..], key)
  }

  lemma {:induction false} FoundByIndex(fragments: seq<Fragment>, name: string)
    ensures FindFragment(fragments, name)
         == if FragmentIndex(fragments, name) < |fragments| then Some(fragments[FragmentIndex(fragments, name)])
           else None
  {
    if fragments != [] && fragments[0].name != name {
      FoundByIndex(fragments[1..], name);
    }
  }

  lemma {:induction false} SameIndices(a: seq<Fragment>, b: seq<Fragment>, name: string, key: Option<string>)
    requires SameShape(a, b)
    ensures FragmentIndex(a, name) == FragmentIndex(b, name)
    ensures TriggerIndex(a, key) == TriggerIndex(b, key)
  {
    if a != [] {
      ShapeTail(a, b);
      SameIndices(a[1..], b[1..], name, key);
    }
  }

  /** A successful call replaces one fragment and keeps the shape of the list. */
  lemma AddNodeShape(registry: SchemaRegistry, fragment: string, path: string, added: SchemaNode)
    requires ValidRegistry(registry) && AddNode(registry, fragment, path, added).1.None?
    ensures var after := AddNode(registry, fragment, path, added).0;
            var i := FragmentIndex(registry.fragments, fragment);
            && after.text == registry.text && SameShape(registry.fragments, after.fragments)
            && i < |registry.fragments| && after.fragments == registry.fragments[i := after.fragments[i]]
  {
    hide ValidRegistry, ValidSchemaNode, AddBelow, DeriveFields;
  }

  lemma AddNodeTarget(registry: SchemaRegistry, fragment: string, path: string, added: SchemaNode)
    requires ValidRegistry(registry) && AddNode(registry, fragment, path, added).1.None?
    ensures var i := FragmentIndex(registry.fragments, fragment);
            var before, parts := registry.fragments[i], SplitPath(path);
            && i < |registry.fragments| && ValidSchemaNode(added) && ValidSchemaNode(before.root)
            && AddBelow(before.root, parts, added).error.None?
            && ValidSchemaNode(AddBelow(before.root, parts, added).node)
            && AddNode(registry, fragment, path, added).0.fragments[i]
              == Regrown(before, AddBelow(before.root, parts, added).node)
            && (forall part | part in parts :: DotFree(part))
            && (before.triggerKey.None? ==> parts[0] !in TriggerKeys(registry.fragments))
  {
    hide ValidRegistry, ValidSchemaNode, AddBelow, DeriveFields, SplitPath;
    var parts, i := SplitPath(path), FragmentIndex(registry.fragments, fragment);
    FragmentIsValid(registry, i);
    AddedIsValid(registry.fragments[i].root, parts, added);
    TriggerKeysAre(registry.fragments, parts[0]);
    forall part | part in parts ensures DotFree(part) {
      assert "" !in parts;
    }
  }

  lemma RegrownIsValid(f: Fragment, parts: seq<string>, added: SchemaNode)
    requires ValidFragment(f) && parts != [] && ValidSchemaNode(added)
    requires ValidSchemaNode(AddBelow(f.root, parts, added).node) && AddBelow(f.root, parts, added).error.None?
    ensures ValidFragment(Regrown(f, AddBelow(f.root, parts, added).node))
  {
    hide ValidSchemaNode, DeriveFields;
    if f.triggerKey.None? {
      OnlyFirstPart(f.root, parts, added);
      AddedBySetting(f.root, parts, added);
    }
  }

  /** Success or failure, the result is a valid registry. */
  lemma AddNodeKeepsValid(registry: SchemaRegistry, fragment: string, path: string, added: SchemaNode)
    requires ValidRegistry(registry)
    ensures ValidRegistry(AddNode(registry, fragment, path, added).0)
  {
    hide ValidSchemaNode, AddBelow, DeriveFields, SplitPath, Regrown, ValidFragment;
    var result := AddNode(registry, fragment, path, added);
    if result.1.None? {
      AddNodeShape(registry, fragment, path, added);
      AddNodeTarget(registry, fragment, path, added);
      var i := FragmentIndex(registry.fragments, fragment);
      assert registry.fragments[i] in registry.fragments;
      RegrownIsValid(registry.fragments[i], SplitPath(path), added);
      SameIndices(registry.fragments, result.0.fragments, fragment, None);
      forall f | f in result.0.fragments ensures ValidFragment(f) {
        var j :| 0 <= j < |result.0.fragments| && result.0.fragments[j] == f;
        assert j != i ==> registry.fragments[j] == f;
      }
    } else {
      FailedCall(registry, fragment, path, added);
    }
  }

  lemma FailedCall(registry: SchemaRegistry, fragment: string, path: string, added: SchemaNode)
    requires ValidRegistry(registry) && AddNode(registry, fragment, path, added).1.Some?
    ensures AddNode(registry, fragment, path, added).0 == registry
  {
    hide ValidRegistry, ValidSchemaNode, AddBelow, DeriveFields, SplitPath, Regrown;
  }

  // ---------------------------------------------------------------- plain registries stay plain

  lemma {:induction false} InsertedEntries<V>(m: OrderedMap<V>, key: string, value: V)
    ensures forall e | e in Insert(m, key, value) :: e in m || e == Entry(key, value)
    ensures forall e | e in m && e.key != key :: e in Insert(m, key, value)
  {
    hide Get;
    if m != [] {
      InsertedEntries(m[1..], key, value);
      assert m == [m[0]] + m[1..];
    }
  }

  lemma {:induction false} InsertedKeys<V>(m: OrderedMap<V>, key: string, value: V)
    requires UniqueKeys(m)
    ensures UniqueKeys(Insert(m, key, value))
  {
    hide Get;
    if m != [] && m[0].key != key {
      var rest := Insert(m[1..], key, value);
      InsertedEntries(m[1..], key, value);
      InsertedKeys(m[1..], key, value);
      forall e | e in rest ensures e.key != m[0].key {
        if e in m[1..] {
          var k :| 0 <= k < |m[1..]| && m[1..][k] == e;
        }
      }
      assert Insert(m, key, value) == [m[0]] + rest;
    }
  }

  lemma BaseStaysPlain(root: SchemaNode, parts: seq<string>, added: SchemaNode)
    requires PlainBase(root) && parts != [] && DotFree(parts[0]) && AddBelow(root, parts, added).error.None?
    ensures PlainBase(AddBelow(root, parts, added).node)
  {
    hide AddBelow, DotFree, Get;
    AddedBySetting(root, parts, added);
    var value := Property(AddBelow(root, parts, added).node, parts[0]).value;
    InsertedEntries(root.properties, parts[0], value);
    InsertedKeys(root.properties, parts[0], value);
  }

  /** The base fragment is the one named "base", so both ways of finding it give one index. */
  lemma BaseIndex(registry: SchemaRegistry)
    requires ValidRegistry(registry) && PlainRegistry(registry)
    ensures FragmentIndex(registry.fragments, "base") == TriggerIndex(registry.fragments, None) < |registry.fragments|
  {
    hide ValidFragment, PlainBase, TriggerKeys, DotFree;
    FoundByIndex(registry.fragments, "base");
    var i, j := FragmentIndex(registry.fragments, "base"), TriggerIndex(registry.fragments, None);
    assert registry.fragments[i].triggerKey == registry.fragments[j].triggerKey;
  }

  lemma AddNodeKeepsPlain(registry: SchemaRegistry, fragment: string, path: string, added: SchemaNode)
    requires ValidRegistry(registry) && PlainRegistry(registry)
    ensures ValidRegistry(AddNode(registry, fragment, path, added).0)
    ensures PlainRegistry(AddNode(registry, fragment, path, added).0)
  {
    hide ValidSchemaNode, AddBelow, DeriveFields, SplitPath, ValidFragment, PlainBase, DotFree, AddNode, Get;
    AddNodeKeepsValid(registry, fragment, path, added);
    var result := AddNode(registry, fragment, path, added);
    if result.1.Some? {
      FailedCall(registry, fragment, path, added);
    } else {
      AddNodeShape(registry, fragment, path, added);
      AddNodeTarget(registry, fragment, path, added);
      BaseIndex(registry);
      var before, after, parts := registry.fragments, result.0.fragments, SplitPath(path);
      SameIndices(before, after, "base", None);
      SameTriggerKeys(before, after);
      FoundByIndex(after, "base");
      var base, i := TriggerIndex(before, None), FragmentIndex(before, fragment);
      assert DistinctTriggers(after) by {
        forall j, k | 0 <= j < k < |after| ensures after[j].triggerKey != after[k].triggerKey {
          assert before[j].triggerKey != before[k].triggerKey;
        }
      }
      if base == i {
        BaseStaysPlain(before[i].root, parts, added);
        OnlyFirstPart(before[i].root, parts, added);
      }
    }
  }

  // ---------------------------------------------------------------- lookups over every sequence of calls

  datatype Call = Call(fragment: string, path: string, added: SchemaNode)

  function After(registry: SchemaRegistry, calls: seq<Call>): (r: SchemaRegistry)
    requires ValidRegistry(registry)
    ensures ValidRegistry(r)
    decreases |calls|
  {
    if calls == [] then registry
    else
      AddNodeKeepsValid(registry, calls[0].fragment, calls[0].path, calls[0].added);
      After(AddNode(registry, calls[0].fragment, calls[0].path, calls[0].added).0, calls[1..])
  }

  /** No sequence of calls ever lets a base field shadow a trigger key. */
  lemma {:induction false} CallsKeepPlain(registry: SchemaRegistry, calls: seq<Call>)
    requires ValidRegistry(registry) && PlainRegistry(registry)
    ensures PlainRegistry(After(registry, calls))
    decreases |calls|
  {
    hide ValidRegistry, PlainRegistry, AddNode;
    if calls != [] {
      AddNodeKeepsPlain(registry, calls[0].fragment, calls[0].path, calls[0].added);
      CallsKeepPlain(AddNode(registry, calls[0].fragment, calls[0].path, calls[0].added).0, calls[1..]);
    }
  }

  ghost predicate PlainRoots(registry: SchemaRegistry) {
    forall f | f in registry.fragments :: PlainTree(f.root) && f.root.fieldType == Some(ObjectType)
  }

  lemma WithPropertyIsPlain(node: SchemaNode, name: string, property: SchemaNode)
    requires PlainTree(node) && PlainTree(property) && DotFree(name)
    ensures PlainTree(WithProperty(node, name, property))
  {
    hide DotFree, Get;
    InsertedEntries(node.properties, name, property);
    InsertedKeys(node.properties, name, property);
  }

  lemma {:induction false} AddedIsPlain(node: SchemaNode, parts: seq<string>, added: SchemaNode)
    requires parts != [] && (forall part | part in parts :: DotFree(part)) && PlainTree(node) && PlainTree(added)
    ensures PlainTree(AddBelow(node, parts, added).node)
    decreases |parts|
  {
    hide PlainTree, DotFree, WithProperty, Property;
    if |parts| == 1 {
      WithPropertyIsPlain(node, parts[0], added);
    } else {
      FreshIsPlain();
      if Property(node, parts[0]).None? {
        WithPropertyIsPlain(node, parts[0], WRITABLE_OBJECT);
      }
      var parent := Opened(node, parts[0]);
      var child := Property(parent, parts[0]).value;
      PlainProperty(parent, parts[0]);
      if child.fieldType == Some(ObjectType) {
        AddedIsPlain(child, parts[1..], added);
        WithPropertyIsPlain(parent, parts[0], AddBelow(child, parts[1..], added).node);
      }
    }
  }

  lemma FreshIsPlain()
    ensures PlainTree(WRITABLE_OBJECT)
  {
  }

  /** One call keeps the answer to every lookup that had one. */
  lemma AddNodeKeepsLookups(registry: SchemaRegistry, call: Call, fragment: string, field: string)
    requires ValidRegistry(registry) && PlainRoots(registry) && PlainTree(call.added)
    ensures PlainRoots(AddNode(registry, call.fragment, call.path, call.added).0)
    ensures LookupField(registry, fragment, field).Some? ==>
      LookupField(AddNode(registry, call.fragment, call.path, call.added).0, fragment, field)
        == LookupField(registry, fragment, field)
  {
    hide ValidRegistry, ValidSchemaNode, AddBelow, DeriveFields, SplitPath, DotFree, AddNode, Get, PlainTree,
      FindFragment;
    var result := AddNode(registry, call.fragment, call.path, call.added);
    if result.1.Some? {
      FailedCall(registry, call.fragment, call.path, call.added);
    } else {
      AddNodeShape(registry, call.fragment, call.path, call.added);
      AddNodeTarget(registry, call.fragment, call.path, call.added);
      var before, after, parts := registry.fragments, result.0.fragments, SplitPath(call.path);
      var i := FragmentIndex(before, call.fragment);
      assert before[i] in before;
      AddedIsPlain(before[i].root, parts, call.added);
      OnlyFirstPart(before[i].root, parts, call.added);
      forall f | f in after ensures PlainTree(f.root) && f.root.fieldType == Some(ObjectType) {
        var j :| 0 <= j < |after| && after[j] == f;
        assert j != i ==> before[j] in before;
      }
      SameIndices(before, after, fragment, None);
      FoundByIndex(before, fragment);
      FoundByIndex(after, fragment);
      if LookupField(registry, fragment, field).Some? && FragmentIndex(before, fragment) == i {
        RegrownLookup(registry, i, parts, call.added, field);
      }
    }
  }

  lemma RegrownLookup(registry: SchemaRegistry, i: nat, parts: seq<string>, added: SchemaNode, field: string)
    requires ValidRegistry(registry) && PlainRoots(registry) && i < |registry.fragments|
    requires parts != [] && (forall part | part in parts :: DotFree(part)) && ValidSchemaNode(added)
    requires AddBelow(registry.fragments[i].root, parts, added).error.None?
    requires ValidSchemaNode(AddBelow(registry.fragments[i].root, parts, added).node)
    requires Get(registry.fragments[i].fields, field).Some?
    ensures Get(Regrown(registry.fragments[i], AddBelow(registry.fragments[i].root, parts, added).node).fields, field)
         == Get(registry.fragments[i].fields, field)
  {
    hide ValidSchemaNode, AddBelow, DotFree, Get, PlainTree, FlatLookup;
    var f := registry.fragments[i];
    FragmentIsValid(registry, i);
    assert f in registry.fragments;
    FlatMapIsTheTree(f.root, "", [], field);
    FlatMapIsTheTree(AddBelow(f.root, parts, added).node, "", [], field);
    NothingIsEmpty(field);
    LookupsKept(f.root, parts, added, "", field);
  }

  lemma NothingIsEmpty(key: string)
    ensures Get<FieldInfo>([], key).None?
  {
  }

  /** The added node leaves the answer alone: it claims nothing else there, or a later claim stands. */
  ghost predicate LeavesAnswer(root: SchemaNode, parts: seq<string>, added: SchemaNode, field: string)
    requires parts != [] && ValidSchemaNode(root) && ValidSchemaNode(added)
  {
    || LaterClaim(root, parts, "", field).Some?
    || NewClaim(root, parts, added, "", field).None?
    || NewClaim(root, parts, added, "", field) == FlatLookup(root, "", field)
  }

  /** On every registry, a successful call keeps an answered lookup exactly when it leaves the answer alone. */
  lemma AddNodeKeepsLookupsExactly(registry: SchemaRegistry, call: Call, fragment: string, field: string)
    requires ValidRegistry(registry) && AddNode(registry, call.fragment, call.path, call.added).1.None?
    requires LookupField(registry, fragment, field).Some?
    ensures var i := FragmentIndex(registry.fragments, call.fragment);
            && i < |registry.fragments| && ValidSchemaNode(registry.fragments[i].root) && ValidSchemaNode(call.added)
            && (LookupField(AddNode(registry, call.fragment, call.path, call.added).0, fragment, field)
                  == LookupField(registry, fragment, field) <==>
                fragment != call.fragment
                  || LeavesAnswer(registry.fragments[i].root, SplitPath(call.path), call.added, field))
  {
    hide ValidRegistry, ValidSchemaNode, AddBelow, DeriveFields, SplitPath, DotFree, AddNode, Get, FindFragment,
      LeavesAnswer;
    var after := AddNode(registry, call.fragment, call.path, call.added).0;
    AddNodeShape(registry, call.fragment, call.path, call.added);
    AddNodeTarget(registry, call.fragment, call.path, call.added);
    var i := FragmentIndex(registry.fragments, call.fragment);
    SameIndices(registry.fragments, after.fragments, fragment, None);
    FoundByIndex(registry.fragments, fragment);
    FoundByIndex(after.fragments, fragment);
    if fragment == call.fragment {
      RegrownLookupExactly(registry, i, SplitPath(call.path), call.added, field);
    } else {
      assert FragmentIndex(registry.fragments, fragment) != i;
    }
  }

  lemma RegrownLookupExactly(registry: SchemaRegistry, i: nat, parts: seq<string>, added: SchemaNode, field: string)
    requires ValidRegistry(registry) && i < |registry.fragments| && ValidSchemaNode(registry.fragments[i].root)
    requires parts != [] && ValidSchemaNode(added)
    requires AddBelow(registry.fragments[i].root, parts, added).error.None?
    requires ValidSchemaNode(AddBelow(registry.fragments[i].root, parts, added).node)
    requires Get(registry.fragments[i].fields, field).Some?
    ensures LeavesAnswer(registry.fragments[i].root, parts, added, field) <==>
      Get(Regrown(registry.fragments[i], AddBelow(registry.fragments[i].root, parts, added).node).fields, field)
        == Get(registry.fragments[i].fields, field)
  {
    hide ValidSchemaNode, AddBelow, Get, FlatLookup, LaterClaim, NewClaim;
    var f := registry.fragments[i];
    FragmentIsValid(registry, i);
    FlatMapIsTheTree(f.root, "", [], field);
    FlatMapIsTheTree(AddBelow(f.root, parts, added).node, "", [], field);
    NothingIsEmpty(field);
    LookupKeptExactly(f.root, parts, added, "", field);
  }

  /** Over every sequence of calls, a lookup that once has an answer keeps it. */
  lemma {:induction false} CallsKeepLookups(registry: SchemaRegistry, calls: seq<Call>, fragment: string, field: string)
    requires ValidRegistry(registry) && PlainRoots(registry)
    requires forall call | call in calls :: PlainTree(call.added)
    requires LookupField(registry, fragment, field).Some?
    ensures LookupField(After(registry, calls), fragment, field) == LookupField(registry, fragment, field)
    decreases |calls|
  {
    hide ValidRegistry, PlainRoots, PlainTree, AddNode, LookupField;
    if calls != [] {
      assert calls[0] in calls;
      AddNodeKeepsLookups(registry, calls[0], fragment, field);
      AddNodeKeepsValid(registry, calls[0].fragment, calls[0].path, calls[0].added);
      CallsKeepLookups(AddNode(registry, calls[0].fragment, calls[0].path, calls[0].added).0, calls[1..], fragment,
                       field);
    }
  }

  /** A call leaves an answer alone: it fails, extends another fragment, or claims nothing else there. */
  ghost predicate Untouched(registry: SchemaRegistry, call: Call, fragment: string, field: string)
    requires ValidRegistry(registry)
  {
    AddNode(registry, call.fragment, call.path, call.added).1.None? && fragment == call.fragment ==>
      var i := FragmentIndex(registry.fragments, call.fragment);
      && i < |registry.fragments| && ValidSchemaNode(registry.fragments[i].root) && ValidSchemaNode(call.added)
      && LeavesAnswer(registry.fragments[i].root, SplitPath(call.path), call.added, field)
  }

  lemma CallKeepsLookupExactly(registry: SchemaRegistry, call: Call, fragment: string, field: string)
    requires ValidRegistry(registry) && LookupField(registry, fragment, field).Some?
    ensures Untouched(registry, call, fragment, field) <==>
            LookupField(AddNode(registry, call.fragment, call.path, call.added).0, fragment, field)
            == LookupField(registry, fragment, field)
  {
    hide ValidRegistry, LookupField, LeavesAnswer, FragmentIndex, ValidSchemaNode;
    if AddNode(registry, call.fragment, call.path, call.added).1.None? {
      hide AddNode;
      AddNodeKeepsLookupsExactly(registry, call, fragment, field);
    }
  }

  /** Every call so far has left the answer where it was. */
  ghost predicate KeptUpTo(registry: SchemaRegistry, calls: seq<Call>, n: nat, fragment: string, field: string)
    requires ValidRegistry(registry) && n <= |calls|
  {
    forall k | 0 <= k <= n ::
      LookupField(After(registry, calls[..k]), fragment, field) == LookupField(registry, fragment, field)
  }

  lemma {:induction false} LastCall(registry: SchemaRegistry, calls: seq<Call>, last: Call)
    requires ValidRegistry(registry)
    ensures After(registry, calls + [last]) == AddNode(After(registry, calls), last.fragment, last.path, last.added).0
    decreases |calls|
  {
    hide ValidRegistry, AddNode;
    if calls == [] {
      AddNodeKeepsValid(registry, last.fragment, last.path, last.added);
      assert [] + [last] == [last] && [last][1..] == [];
    } else {
      var call := calls[0];
      AddNodeKeepsValid(registry, call.fragment, call.path, call.added);
      assert (calls + [last])[1..] == calls[1..] + [last];
      LastCall(AddNode(registry, call.fragment, call.path, call.added).0, calls[1..], last);
    }
  }

  /**
   On every registry and over every sequence of calls, an answered lookup keeps its
   answer all along exactly when no call touches it.
   */
  lemma {:induction false} CallsKeepLookupsExactly(registry: SchemaRegistry, calls: seq<Call>, n: nat,
                                                   fragment: string, field: string)
    requires ValidRegistry(registry) && LookupField(registry, fragment, field).Some? && n <= |calls|
    ensures KeptUpTo(registry, calls, n, fragment, field) <==>
      forall k | 0 <= k < n :: Untouched(After(registry, calls[..k]), calls[k], fragment, field)
    decreases n
  {
    hide ValidRegistry, AddNode, LookupField, Untouched;
    if n == 0 {
      assert calls[..0] == [];
    } else {
      CallsKeepLookupsExactly(registry, calls, n - 1, fragment, field);
      assert calls[..n] == calls[..n - 1] + [calls[n - 1]];
      LastCall(registry, calls[..n - 1], calls[n - 1]);
      if KeptUpTo(registry, calls, n - 1, fragment, field) {
        CallKeepsLookupExactly(After(registry, calls[..n - 1]), calls[n - 1], fragment, field);
      }
    }
  }

  // ---------------------------------------------------------------- the registries a program can build

  lemma EmbeddedRootsArePlain(text: IpText)
    ensures PlainRoots(Embedded(text))
  {
    hide ValidRegistry, ValidFragment, PlainTree;
    BaseTreeIsPlain();
    EthernetIsPlain();
    Ipv4IsPlain();
    RootsAreObjects();
    var registry := Embedded(text);
    ThreeRootsArePlain(registry, registry.fragments[0], registry.fragments[1], registry.fragments[2]);
  }

  lemma BaseTreeIsPlain()
    ensures PlainTree(BASE_ROOT)
  {
    hide DotFree, Get;
    BaseIsPlain();
    PlainLeaves(BASE_ROOT);
  }

  lemma ThreeRootsArePlain(registry: SchemaRegistry, base: Fragment, ipv4: Fragment, ethernet: Fragment)
    requires registry.fragments == [base, ipv4, ethernet]
    requires PlainTree(base.root) && PlainTree(ipv4.root) && PlainTree(ethernet.root)
    requires base.root.fieldType == ipv4.root.fieldType == ethernet.root.fieldType == Some(ObjectType)
    ensures PlainRoots(registry)
  {
  }

  lemma RootsAreObjects()
    ensures BASE_ROOT.fieldType == IPV4_ROOT.fieldType == ETHERNET_ROOT.fieldType == Some(ObjectType)
  {
  }

  lemma PlainLeaves(node: SchemaNode)
    requires PlainBase(node)
    requires forall i | 0 <= i < |node.properties| ::
               node.properties[i].value.properties == [] && node.properties[i].value.items.None?
    ensures PlainTree(node)
  {
    hide DotFree;
    forall e | e in node.properties ensures PlainTree(e.value) {
      var i :| 0 <= i < |node.properties| && node.properties[i] == e;
    }
  }

  lemma EthernetIsPlain()
    ensures PlainTree(ETHERNET_ROOT)
  {
    var node := ETHERNET_ROOT;
    assert node.properties[0].key == "speed" && node.properties[1].key == "duplex"
      && node.properties[2].key == "autoneg";
    assert |node.properties| == 3;
    PlainLeaves(node);
  }

  lemma Ipv4IsPlain()
    ensures PlainTree(IPV4_ROOT)
  {
    var item := IPV4_ITEM;
    assert |item.properties| == 3;
    assert item.properties[0].key == "ip" && item.properties[1].key == "valid_lft"
      && item.properties[2].key == "preferred_lft";
    PlainLeaves(item);
    ArrayIsPlain(IPV4_ROOT, "addresses", item);
  }

  lemma ArrayIsPlain(root: SchemaNode, name: string, item: SchemaNode)
    requires PlainTree(item) && DotFree(name) && root.items.None?
    requires root.properties == [Entry(name, Scalar(ArrayType, true).(items := Some(item)))]
    ensures PlainTree(root)
  {
    hide DotFree;
    assert PlainTree(root.properties[0].value);
  }

  /** An addition never changes what the base requires at its top. */
  lemma AddNodeKeepsRequired(registry: SchemaRegistry, call: Call)
    requires ValidRegistry(registry) && PlainRegistry(registry)
    ensures ValidRegistry(AddNode(registry, call.fragment, call.path, call.added).0)
    ensures BaseRoot(AddNode(registry, call.fragment, call.path, call.added).0).required == BaseRoot(registry).required
  {
    hide ValidSchemaNode, ValidRegistry, AddBelow, DeriveFields, SplitPath, ValidFragment, PlainBase, DotFree, AddNode,
      Get;
    AddNodeKeepsValid(registry, call.fragment, call.path, call.added);
    var result := AddNode(registry, call.fragment, call.path, call.added);
    if result.1.Some? {
      FailedCall(registry, call.fragment, call.path, call.added);
    } else {
      AddNodeShape(registry, call.fragment, call.path, call.added);
      AddNodeTarget(registry, call.fragment, call.path, call.added);
      BaseIndex(registry);
      var before, after := registry.fragments, result.0.fragments;
      SameIndices(before, after, "base", None);
      var i := FragmentIndex(before, call.fragment);
      OnlyFirstPart(before[i].root, SplitPath(call.path), call.added);
    }
  }

  lemma {:induction false} CallsKeepRequired(registry: SchemaRegistry, calls: seq<Call>)
    requires ValidRegistry(registry) && PlainRegistry(registry)
    ensures BaseRoot(After(registry, calls)).required == BaseRoot(registry).required
    decreases |calls|
  {
    hide ValidRegistry, PlainRegistry, AddNode, BaseRoot;
    if calls != [] {
      AddNodeKeepsPlain(registry, calls[0].fragment, calls[0].path, calls[0].added);
      AddNodeKeepsRequired(registry, calls[0]);
      CallsKeepRequired(AddNode(registry, calls[0].fragment, calls[0].path, calls[0].added).0, calls[1..]);
    }
  }

  lemma EmbeddedRequires(text: IpText)
    ensures BaseRoot(Embedded(text)).required == []
  {
    hide ValidRegistry, DeriveFields;
    var registry := Embedded(text);
    TriggersOfThree(registry.fragments);
  }

  /**
   On every registry a program can build, preparation never fails its second
   validation unless some fragment requires a read-only property or describes
   arrays of arrays: no match field is ever required there.
   */
  lemma BuiltRegistriesPrepare(text: IpText, calls: seq<Call>, options: Options, states: seq<State>)
    requires forall f | f in After(Embedded(text), calls).fragments :: Strippable(f.root)
    requires forall s | s in states ::
               Ready(After(Embedded(text), calls), options, Reset(After(Embedded(text), calls), s))
    ensures Prepare(After(Embedded(text), calls), options, states).Success?
  {
    hide ValidRegistry, Prepare, Embedded, Ready, Reset, BaseRoot, Strippable, FindFragment, PlainBase, DotFree;
    EmbeddedIsPlain(text);
    EmbeddedRequires(text);
    CallsKeepPlain(Embedded(text), calls);
    CallsKeepRequired(Embedded(text), calls);
    PreparationSucceeds(After(Embedded(text), calls), options, states);
  }

  /** Whatever nodes are added to the embedded fragments, states are prepared once and for all. */
  lemma BuiltRegistriesPrepareOnce(text: IpText, calls: seq<Call>, options: Options, states: seq<State>)
    requires Prepare(After(Embedded(text), calls), options, states).Success?
    ensures var outcome := Prepare(After(Embedded(text), calls), options, states).value;
            forall again: Options :: Prepare(After(Embedded(text), calls), again, outcome.states)
              == Success(Outcome(outcome.states, []))
  {
    hide ValidRegistry, PlainRegistry, Prepare, Embedded;
    EmbeddedIsPlain(text);
    CallsKeepPlain(Embedded(text), calls);
    PreparingAgainChangesNothing(After(Embedded(text), calls), options, states);
  }

  lemma {:induction false} AfterMore(registry: SchemaRegistry, calls: seq<Call>, more: seq<Call>)
    requires ValidRegistry(registry)
    ensures After(registry, calls + more) == After(After(registry, calls), more)
    decreases |calls|
  {
    hide ValidRegistry, AddNode;
    if calls == [] {
      assert calls + more == more;
    } else {
      var call := calls[0];
      AddNodeKeepsValid(registry, call.fragment, call.path, call.added);
      assert (calls + more)[0] == call && (calls + more)[1..] == calls[1..] + more;
      AfterMore(AddNode(registry, call.fragment, call.path, call.added).0, calls[1..], more);
    }
  }

  lemma {:induction false} CallsKeepRoots(registry: SchemaRegistry, calls: seq<Call>)
    requires ValidRegistry(registry) && PlainRoots(registry)
    requires forall call | call in calls :: PlainTree(call.added)
    ensures PlainRoots(After(registry, calls))
    decreases |calls|
  {
    hide ValidRegistry, PlainRoots, PlainTree, AddNode, LookupField;
    if calls != [] {
      var call := calls[0];
      assert call in calls;
      AddNodeKeepsLookups(registry, call, "", "");
      AddNodeKeepsValid(registry, call.fragment, call.path, call.added);
      CallsKeepRoots(AddNode(registry, call.fragment, call.path, call.added).0, calls[1..]);
    }
  }

  /** A registry built from the embedded fragments by adding plain nodes keeps its answers while more are added. */
  lemma BuiltRegistriesKeepLookups(text: IpText, calls: seq<Call>, more: seq<Call>, fragment: string, field: string)
    requires forall call | call in calls + more :: PlainTree(call.added)
    requires LookupField(After(Embedded(text), calls), fragment, field).Some?
    ensures LookupField(After(Embedded(text), calls + more), fragment, field)
         == LookupField(After(Embedded(text), calls), fragment, field)
  {
    hide ValidRegistry, PlainRoots, PlainTree, LookupField, Embedded;
    EmbeddedRootsArePlain(text);
    forall call | call in calls || call in more ensures PlainTree(call.added) {
      assert call in calls + more;
    }
    CallsKeepRoots(Embedded(text), calls);
    AfterMore(Embedded(text), calls, more);
    CallsKeepLookups(After(Embedded(text), calls), more, fragment, field);
  }
}
