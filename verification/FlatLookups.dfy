/** The flat field map, and why additions keep every earlier lookup (schema.rs). */
module FlatLookups {
  import opened Wrappers
  import opened OrderedMaps
  import opened Schemas
  import opened PreparationLaws
  import opened SchemaExtension

  // ---------------------------------------------------------------- lookups through the tree

  function InfoOf(node: SchemaNode): FieldInfo
    requires ValidSchemaNode(node)
  {
    FieldInfo(node.writable, SemanticType(node).value)
  }

  /** What the tree says about a dotted path: the last field that claims it. */
  function FlatLookup(node: SchemaNode, prefix: string, path: string): Option<FieldInfo>
    requires ValidSchemaNode(node)
    decreases node, 0
  {
    var ofItems := if node.items.Some? then FlatLookup(node.items.value, prefix, path) else None;
    if ofItems.Some? then ofItems else FlatProperties(node.properties, prefix, path)
  }

  function FlatProperties(properties: OrderedMap<SchemaNode>, prefix: string, path: string): Option<FieldInfo>
    requires forall e | e in properties :: ValidSchemaNode(e.value)
    decreases properties
  {
    if properties == [] then None
    else
      var later := FlatProperties(properties[1..], prefix, path);
      if later.Some? then later else FlatProperty(properties[0].value, JoinPath(prefix, properties[0].key), path)
  }

  function FlatProperty(node: SchemaNode, own: string, path: string): Option<FieldInfo>
    requires ValidSchemaNode(node)
    decreases node, 1
  {
    var nested := FlatLookup(node, own, path);
    if nested.Some? then nested else if path == own then Some(InfoOf(node)) else None
  }

  /** The flat map answers exactly what the tree says. */
  lemma {:induction false} FlatMapIsTheTree(node: SchemaNode, prefix: string, out: OrderedMap<FieldInfo>, path: string)
    requires ValidSchemaNode(node)
    ensures Get(DeriveFields(node, prefix, out), path)
         == (var info := FlatLookup(node, prefix, path); if info.Some? then info else Get(out, path))
    decreases node
  {
    hide Get;
    FlatPropertiesAreTheTree(node.properties, prefix, out, path);
    if node.items.Some? {
      FlatMapIsTheTree(node.items.value, prefix, DeriveProperties(node.properties, prefix, out), path);
    }
  }

  lemma {:induction false} FlatPropertiesAreTheTree(properties: OrderedMap<SchemaNode>, prefix: string,
                                                    out: OrderedMap<FieldInfo>, path: string)
    requires forall e | e in properties :: ValidSchemaNode(e.value)
    ensures Get(DeriveProperties(properties, prefix, out), path)
         == (var info := FlatProperties(properties, prefix, path); if info.Some? then info else Get(out, path))
    decreases properties
  {
    hide Get, ValidSchemaNode, JoinPath, SemanticType;
    if properties != [] {
      var node, own := properties[0].value, JoinPath(prefix, properties[0].key);
      assert properties[0] in properties;
      SemanticTypeOf(node);
      var inserted := Insert(out, own, InfoOf(node));
      FlatMapIsTheTree(node, own, inserted, path);
      FlatPropertiesAreTheTree(properties[1..], prefix, DeriveFields(node, own, inserted), path);
    }
  }

  // ---------------------------------------------------------------- paths under a field

  /** The path is the field's own or continues it after a dot. */
  ghost predicate Under(own: string, path: string) {
    own <= path && (|own| == |path| || path[|own|] == '.')
  }

  lemma UnderOneName(prefix: string, a: string, b: string, path: string)
    requires DotFree(a) && DotFree(b)
    requires Under(JoinPath(prefix, a), path) && Under(JoinPath(prefix, b), path)
    ensures a == b
  {
    var at := if prefix == "" then 0 else |prefix| + 1;
    assert forall i | 0 <= i < |a| :: path[at + i] == JoinPath(prefix, a)[at + i] == a[i];
    assert forall i | 0 <= i < |b| :: path[at + i] == JoinPath(prefix, b)[at + i] == b[i];
    assert forall i | 0 <= i < |b| :: b[i] != '.';
    assert forall i | 0 <= i < |a| :: a[i] != '.';
    assert |a| == |b|;
  }

  lemma UnderNested(own: string, name: string, path: string)
    requires own != "" && Under(JoinPath(own, name), path)
    ensures Under(own, path) && path != own
  {
    assert JoinPath(own, name)[|own|] == '.';
    assert own <= JoinPath(own, name);
  }

  /** A field below a non-empty prefix lies strictly under that prefix. */
  lemma {:induction false} LookupIsUnder(node: SchemaNode, prefix: string, path: string)
    requires ValidSchemaNode(node) && prefix != ""
    ensures FlatLookup(node, prefix, path).Some? ==> Under(prefix, path) && path != prefix
    decreases node, 0
  {
    hide Under, JoinPath;
    if node.items.Some? {
      LookupIsUnder(node.items.value, prefix, path);
    }
    PropertiesAreUnder(node.properties, prefix, path);
  }

  lemma {:induction false} PropertiesAreUnder(properties: OrderedMap<SchemaNode>, prefix: string, path: string)
    requires prefix != "" && forall e | e in properties :: ValidSchemaNode(e.value)
    ensures FlatProperties(properties, prefix, path).Some? ==> Under(prefix, path) && path != prefix
    decreases properties
  {
    hide Under, JoinPath, ValidSchemaNode, FlatLookup, FlatProperty;
    if properties != [] {
      var e := properties[0];
      assert e in properties;
      PropertiesAreUnder(properties[1..], prefix, path);
      JoinedIsNotEmpty(prefix, e.key);
      PropertyIsUnder(e.value, JoinPath(prefix, e.key), path);
      if Under(JoinPath(prefix, e.key), path) {
        UnderNested(prefix, e.key, path);
      }
    }
  }

  lemma JoinedIsNotEmpty(prefix: string, name: string)
    requires prefix != "" || name != ""
    ensures JoinPath(prefix, name) != ""
  {
  }

  lemma {:induction false} PropertyIsUnder(node: SchemaNode, own: string, path: string)
    requires ValidSchemaNode(node) && own != ""
    ensures FlatProperty(node, own, path).Some? ==> Under(own, path)
    ensures path == own ==> FlatProperty(node, own, path) == Some(InfoOf(node))
    ensures path != own ==> FlatProperty(node, own, path) == FlatLookup(node, own, path)
    decreases node, 1
  {
    LookupIsUnder(node, own, path);
  }

  // ---------------------------------------------------------------- one property answers for one path

  /** Names are single components at every level, and only arrays have items. */
  ghost predicate PlainTree(node: SchemaNode) {
    && UniqueKeys(node.properties)
    && (forall e | e in node.properties :: DotFree(e.key) && PlainTree(e.value))
    && (node.items.Some? ==> node.fieldType == Some(ArrayType) && PlainTree(node.items.value))
  }

  ghost predicate PlainProperties(properties: OrderedMap<SchemaNode>) {
    && UniqueKeys(properties)
    && forall e | e in properties :: DotFree(e.key) && ValidSchemaNode(e.value)
  }

  lemma PlainTail(properties: OrderedMap<SchemaNode>)
    requires PlainProperties(properties) && properties != []
    ensures PlainProperties(properties[1..])
    ensures DotFree(properties[0].key) && ValidSchemaNode(properties[0].value)
    ensures forall e | e in properties[1..] :: e.key != properties[0].key
  {
    hide ValidSchemaNode, DotFree;
    assert properties[0] in properties;
    forall i, j | 0 <= i < j < |properties[1..]| ensures properties[1..][i].key != properties[1..][j].key {
      assert properties[i + 1].key != properties[j + 1].key;
    }
  }

  /** Fields of other names say nothing about a path under this one. */
  lemma {:induction false} OtherNamesAreSilent(properties: OrderedMap<SchemaNode>, prefix: string, name: string,
                                               path: string)
    requires PlainProperties(properties) && DotFree(name) && Under(JoinPath(prefix, name), path)
    requires forall e | e in properties :: e.key != name
    ensures FlatProperties(properties, prefix, path).None?
    decreases properties
  {
    hide Under, JoinPath, ValidSchemaNode, FlatProperty;
    if properties != [] {
      PlainTail(properties);
      OtherNamesAreSilent(properties[1..], prefix, name, path);
      SilentProperty(properties[0], prefix, name, path);
    }
  }

  lemma SilentProperty(e: Entry<SchemaNode>, prefix: string, name: string, path: string)
    requires DotFree(e.key) && DotFree(name) && ValidSchemaNode(e.value) && e.key != name
    requires Under(JoinPath(prefix, name), path)
    ensures FlatProperty(e.value, JoinPath(prefix, e.key), path).None?
  {
    hide Under, ValidSchemaNode, FlatProperty, JoinPath;
    JoinedIsNotEmpty(prefix, e.key);
    PropertyIsUnder(e.value, JoinPath(prefix, e.key), path);
    if Under(JoinPath(prefix, e.key), path) {
      UnderOneName(prefix, e.key, name, path);
    }
  }

  /** Setting one property leaves every path alone that is not under its name. */
  lemma {:induction false} InsertedLookup(properties: OrderedMap<SchemaNode>, prefix: string, name: string,
                                          node: SchemaNode, path: string)
    requires PlainProperties(properties) && DotFree(name) && ValidSchemaNode(node)
    requires forall e | e in Insert(properties, name, node) :: ValidSchemaNode(e.value)
    ensures FlatProperties(Insert(properties, name, node), prefix, path)
         == if Under(JoinPath(prefix, name), path) then FlatProperty(node, JoinPath(prefix, name), path)
            else FlatProperties(properties, prefix, path)
    decreases properties
  {
    hide Under, JoinPath, ValidSchemaNode, FlatProperty, Get, DotFree;
    JoinedUnder(prefix, name, node, path);
    var after := Insert(properties, name, node);
    if properties == [] {
      assert after[1..] == [];
    } else {
      PlainTail(properties);
      var e := properties[0];
      if e.key == name {
        assert after[0] == Entry(name, node) && after[1..] == properties[1..];
        ReplacedLookup(properties, prefix, name, path);
      } else {
        assert after[0] == e && after[1..] == Insert(properties[1..], name, node);
        InsertedLookup(properties[1..], prefix, name, node, path);
        if Under(JoinPath(prefix, name), path) {
          SilentProperty(e, prefix, name, path);
        }
      }
    }
  }

  /** Only the first property answers for paths under its name. */
  lemma ReplacedLookup(properties: OrderedMap<SchemaNode>, prefix: string, name: string, path: string)
    requires PlainProperties(properties) && properties != [] && properties[0].key == name
    ensures ValidSchemaNode(properties[0].value)
    ensures Under(JoinPath(prefix, name), path) ==> FlatProperties(properties[1..], prefix, path).None?
    ensures !Under(JoinPath(prefix, name), path)
      ==> FlatProperties(properties, prefix, path) == FlatProperties(properties[1..], prefix, path)
  {
    hide Under, JoinPath, ValidSchemaNode, FlatProperty, Get, DotFree;
    PlainTail(properties);
    JoinedUnder(prefix, name, properties[0].value, path);
    if Under(JoinPath(prefix, name), path) {
      OtherNamesAreSilent(properties[1..], prefix, name, path);
    }
  }

  lemma JoinedUnder(prefix: string, name: string, node: SchemaNode, path: string)
    requires DotFree(name) && ValidSchemaNode(node)
    ensures FlatProperty(node, JoinPath(prefix, name), path).Some? ==> Under(JoinPath(prefix, name), path)
  {
    JoinedIsNotEmpty(prefix, name);
    PropertyIsUnder(node, JoinPath(prefix, name), path);
  }

  lemma {:induction false} NamedLookup(properties: OrderedMap<SchemaNode>, prefix: string, name: string, path: string)
    requires PlainProperties(properties) && DotFree(name) && Under(JoinPath(prefix, name), path)
    ensures Get(properties, name).Some? ==> ValidSchemaNode(Get(properties, name).value)
    ensures FlatProperties(properties, prefix, path)
         == match Get(properties, name)
            case None => None
            case Some(node) => FlatProperty(node, JoinPath(prefix, name), path)
    decreases properties
  {
    hide Under, JoinPath, ValidSchemaNode, FlatProperty, DotFree;
    if properties != [] {
      PlainTail(properties);
      if properties[0].key == name {
        OtherNamesAreSilent(properties[1..], prefix, name, path);
      } else {
        NamedLookup(properties[1..], prefix, name, path);
        SilentProperty(properties[0], prefix, name, path);
      }
    }
  }

  // ---------------------------------------------------------------- additions are conservative

  lemma PlainNode(node: SchemaNode)
    requires ValidSchemaNode(node) && PlainTree(node) && node.fieldType == Some(ObjectType)
    ensures PlainProperties(node.properties) && node.items.None?
    ensures forall prefix, path :: FlatLookup(node, prefix, path) == FlatProperties(node.properties, prefix, path)
  {
  }

  lemma PlainProperty(node: SchemaNode, name: string)
    requires PlainTree(node) && Property(node, name).Some?
    ensures PlainTree(Property(node, name).value) && DotFree(name)
  {
    assert Entry(name, Property(node, name).value) in node.properties;
  }

  lemma WithPropertyLookup(node: SchemaNode, prefix: string, name: string, property: SchemaNode, path: string)
    requires ValidSchemaNode(node) && PlainTree(node) && node.fieldType == Some(ObjectType)
    requires DotFree(name) && ValidSchemaNode(property)
    ensures ValidSchemaNode(WithProperty(node, name, property))
    ensures FlatLookup(WithProperty(node, name, property), prefix, path)
         == if Under(JoinPath(prefix, name), path) then FlatProperty(property, JoinPath(prefix, name), path)
            else FlatLookup(node, prefix, path)
  {
    hide Under, JoinPath, FlatProperties, FlatProperty, DotFree, PlainTree;
    WithPropertyIsValid(node, name, property);
    PlainNode(node);
    InsertedLookup(node.properties, prefix, name, property, path);
  }

  /** A path the tree already knows keeps its answer when a node is added. */
  lemma {:induction false} LookupsKept(node: SchemaNode, parts: seq<string>, added: SchemaNode, prefix: string,
                                       path: string)
    requires parts != [] && (forall part | part in parts :: DotFree(part))
    requires ValidSchemaNode(node) && PlainTree(node) && node.fieldType == Some(ObjectType) && ValidSchemaNode(added)
    requires AddBelow(node, parts, added).error.None?
    requires FlatLookup(node, prefix, path).Some?
    ensures ValidSchemaNode(AddBelow(node, parts, added).node)
    ensures FlatLookup(AddBelow(node, parts, added).node, prefix, path) == FlatLookup(node, prefix, path)
    decreases |parts|, 0
  {
    hide Under, JoinPath, FlatLookup, FlatProperty, DotFree, PlainTree, ValidSchemaNode, WithProperty;
    AddedIsValid(node, parts, added);
    PlainNode(node);
    var name := parts[0];
    var own := JoinPath(prefix, name);
    if Under(own, path) {
      NamedLookup(node.properties, prefix, name, path);
      var child := Property(node, name).value;
      PropertyIsValid(node, name);
      PlainProperty(node, name);
      AddedIsValid(child, parts[1..], added);
      var grown := AddBelow(child, parts[1..], added).node;
      WithPropertyLookup(node, prefix, name, grown, path);
      NamesAreNotEmpty(name);
      JoinedIsNotEmpty(prefix, name);
      ChildLookupKept(child, parts[1..], added, own, path);
    } else {
      OnlyFirstPartLookup(node, parts, added, prefix, path);
    }
  }

  lemma NamesAreNotEmpty(name: string)
    requires DotFree(name)
    ensures name != ""
  {
  }

  lemma {:induction false} ChildLookupKept(child: SchemaNode, parts: seq<string>, added: SchemaNode, own: string,
                                           path: string)
    requires parts != [] && (forall part | part in parts :: DotFree(part))
    requires ValidSchemaNode(child) && PlainTree(child) && child.fieldType == Some(ObjectType) && ValidSchemaNode(added)
    requires AddBelow(child, parts, added).error.None? && own != ""
    requires FlatProperty(child, own, path).Some?
    ensures ValidSchemaNode(AddBelow(child, parts, added).node)
    ensures FlatProperty(AddBelow(child, parts, added).node, own, path) == FlatProperty(child, own, path)
    decreases |parts|, 1
  {
    hide Under, JoinPath, FlatLookup, FlatProperty, DotFree, PlainTree, ValidSchemaNode;
    AddedIsValid(child, parts, added);
    var grown := AddBelow(child, parts, added).node;
    PropertyIsUnder(child, own, path);
    PropertyIsUnder(grown, own, path);
    if path == own {
      OnlyFirstPart(child, parts, added);
    } else {
      LookupsKept(child, parts, added, own, path);
    }
  }

  lemma OnlyFirstPartLookup(node: SchemaNode, parts: seq<string>, added: SchemaNode, prefix: string, path: string)
    requires parts != [] && DotFree(parts[0])
    requires ValidSchemaNode(node) && PlainTree(node) && node.fieldType == Some(ObjectType) && ValidSchemaNode(added)
    requires AddBelow(node, parts, added).error.None?
    requires !Under(JoinPath(prefix, parts[0]), path)
    ensures ValidSchemaNode(AddBelow(node, parts, added).node)
    ensures FlatLookup(AddBelow(node, parts, added).node, prefix, path) == FlatLookup(node, prefix, path)
  {
    hide Under, JoinPath, FlatLookup, FlatProperty, DotFree, PlainTree, ValidSchemaNode;
    AddedIsValid(node, parts, added);
    AddedBySetting(node, parts, added);
    var property := Property(AddBelow(node, parts, added).node, parts[0]).value;
    PropertyIsValid(AddBelow(node, parts, added).node, parts[0]);
    WithPropertyLookup(node, prefix, parts[0], property, path);
  }

  /** A successful addition is one property set on the root. */
  lemma AddedBySetting(node: SchemaNode, parts: seq<string>, added: SchemaNode)
    requires parts != [] && AddBelow(node, parts, added).error.None?
    ensures var after := AddBelow(node, parts, added).node;
            Property(after, parts[0]).Some? && after == WithProperty(node, parts[0], Property(after, parts[0]).value)
  {
    if |parts| > 1 && Property(node, parts[0]).None? {
      var below := AddBelow(Property(Opened(node, parts[0]), parts[0]).value, parts[1..], added).node;
      InsertTwice(node.properties, parts[0], WRITABLE_OBJECT, below);
    }
  }

  lemma {:induction false} InsertTwice<V>(m: OrderedMap<V>, key: string, a: V, b: V)
    ensures Insert(Insert(m, key, a), key, b) == Insert(m, key, b)
  {
    if m != [] && m[0].key != key {
      InsertTwice(m[1..], key, a, b);
      assert Insert(m, key, a)[1..] == Insert(m[1..], key, a);
    }
  }
}
