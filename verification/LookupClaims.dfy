/** Exactly which flat lookups an added node changes, for every schema tree (schema.rs). */
module LookupClaims {
  import opened Wrappers
  import opened OrderedMaps
  import opened Schemas
  import opened SchemaExtension
  import opened FlatLookups

  // ---------------------------------------------------------------- claims before, at and after the addition

  predicate ValidProperties(properties: OrderedMap<SchemaNode>) {
    forall e | e in properties :: ValidSchemaNode(e.value)
  }

  /** The properties up to the first of a name, or all of them. */
  function Before(properties: OrderedMap<SchemaNode>, name: string): OrderedMap<SchemaNode> {
    if properties == [] || properties[0].key == name then [] else [properties[0]] + Before(properties[1..], name)
  }

  /** The properties behind the first of a name. */
  function Behind(properties: OrderedMap<SchemaNode>, name: string): (r: OrderedMap<SchemaNode>)
    ensures forall e | e in r :: e in properties
  {
    if properties == [] then []
    else if properties[0].key == name then properties[1..]
    else Behind(properties[1..], name)
  }

  function ItemsLookup(node: SchemaNode, prefix: string, path: string): Option<FieldInfo>
    requires ValidSchemaNode(node)
  {
    if node.items.Some? then FlatLookup(node.items.value, prefix, path) else None
  }

  function Or<T>(first: Option<T>, second: Option<T>): Option<T> {
    if first.Some? then first else second
  }

  /**
   What the tree says about a path behind the place where the addition goes: in
   array items and later properties along the way. The later claim wins.
   */
  function LaterClaim(node: SchemaNode, parts: seq<string>, prefix: string, path: string): Option<FieldInfo>
    requires parts != [] && ValidSchemaNode(node)
    decreases |parts|
  {
    var items := ItemsLookup(node, prefix, path);
    if items.Some? || |parts| == 1 || Property(node, parts[0]).None? then items
    else
      var behind := FlatProperties(Behind(node.properties, parts[0]), prefix, path);
      PropertyIsValid(node, parts[0]);
      if behind.Some? then behind
      else LaterClaim(Property(node, parts[0]).value, parts[1..], JoinPath(prefix, parts[0]), path)
  }

  /** What the addition says about a path: the added node, or the parents created for it. */
  function NewClaim(node: SchemaNode, parts: seq<string>, added: SchemaNode, prefix: string,
                    path: string): Option<FieldInfo>
    requires parts != [] && ValidSchemaNode(node) && ValidSchemaNode(added)
    decreases |parts|
  {
    var own := JoinPath(prefix, parts[0]);
    if |parts| == 1 then FlatProperty(added, own, path)
    else if Property(node, parts[0]).Some? then
      PropertyIsValid(node, parts[0]);
      NewClaim(Property(node, parts[0]).value, parts[1..], added, own, path)
    else
      FreshIsValid(parts[1..], added);
      FlatProperty(AddBelow(WRITABLE_OBJECT, parts[1..], added).node, own, path)
  }

  lemma FreshIsValid(parts: seq<string>, added: SchemaNode)
    requires parts != [] && ValidSchemaNode(added)
    ensures ValidSchemaNode(AddBelow(WRITABLE_OBJECT, parts, added).node)
  {
    LeafIsValid(WRITABLE_OBJECT);
    AddedIsValid(WRITABLE_OBJECT, parts, added);
  }

  // ---------------------------------------------------------------- one property in its list

  lemma {:induction false} InsertedClaims(properties: OrderedMap<SchemaNode>, prefix: string, name: string,
                                          node: SchemaNode, path: string)
    requires ValidProperties(properties) && ValidSchemaNode(node)
    ensures ValidProperties(Before(properties, name)) && ValidProperties(Insert(properties, name, node))
    ensures FlatProperties(Insert(properties, name, node), prefix, path)
         == Or(FlatProperties(Behind(properties, name), prefix, path),
               Or(FlatProperty(node, JoinPath(prefix, name), path),
                  FlatProperties(Before(properties, name), prefix, path)))
    decreases properties
  {
    hide ValidSchemaNode, FlatProperty, JoinPath, Get;
    var after := Insert(properties, name, node);
    if properties == [] {
      assert after[1..] == [];
    } else if properties[0].key == name {
      assert after[0] == Entry(name, node) && after[1..] == properties[1..];
    } else {
      InsertedClaims(properties[1..], prefix, name, node, path);
      assert after[0] == properties[0] && after[1..] == Insert(properties[1..], name, node);
      assert Before(properties, name)[1..] == Before(properties[1..], name);
    }
  }

  lemma ClaimsOf(node: SchemaNode, prefix: string, name: string, path: string)
    requires ValidSchemaNode(node) && Property(node, name).Some?
    ensures ValidSchemaNode(Property(node, name).value) && ValidProperties(Before(node.properties, name))
    ensures FlatLookup(node, prefix, path)
         == Or(ItemsLookup(node, prefix, path), Or(FlatProperties(Behind(node.properties, name), prefix, path),
               Or(FlatProperty(Property(node, name).value, JoinPath(prefix, name), path),
                  FlatProperties(Before(node.properties, name), prefix, path))))
  {
    hide FlatProperty, JoinPath, Get, Insert;
    PropertyIsValid(node, name);
    var child := Property(node, name).value;
    InsertedClaims(node.properties, prefix, name, child, path);
    InsertSame(node.properties, name);
  }

  lemma ClaimsWith(node: SchemaNode, prefix: string, name: string, property: SchemaNode, path: string)
    requires ValidSchemaNode(node) && ValidSchemaNode(property)
    ensures ValidSchemaNode(WithProperty(node, name, property)) && ValidProperties(Before(node.properties, name))
    ensures FlatLookup(WithProperty(node, name, property), prefix, path)
         == Or(ItemsLookup(node, prefix, path), Or(FlatProperties(Behind(node.properties, name), prefix, path),
               Or(FlatProperty(property, JoinPath(prefix, name), path),
                  FlatProperties(Before(node.properties, name), prefix, path))))
  {
    hide FlatProperty, JoinPath, Get, Insert;
    WithPropertyIsValid(node, name, property);
    InsertedClaims(node.properties, prefix, name, property, path);
  }

  /** Without a property of the name, everything comes before it. */
  lemma {:induction false} NothingBehind(properties: OrderedMap<SchemaNode>, name: string)
    requires Get(properties, name).None?
    ensures Before(properties, name) == properties && Behind(properties, name) == []
  {
    if properties != [] {
      NothingBehind(properties[1..], name);
    }
  }

  // ---------------------------------------------------------------- the exact effect of an addition

  /** The claims of a tree with an added node: the later ones, the addition, and the ones before. */
  lemma {:induction false} AddedClaims(node: SchemaNode, parts: seq<string>, added: SchemaNode, prefix: string,
                                       path: string)
    requires parts != [] && ValidSchemaNode(node) && ValidSchemaNode(added)
    requires AddBelow(node, parts, added).error.None?
    ensures ValidSchemaNode(AddBelow(node, parts, added).node)
    ensures LaterClaim(node, parts, prefix, path).Some? ==>
      FlatLookup(node, prefix, path) == LaterClaim(node, parts, prefix, path)
    ensures FlatLookup(AddBelow(node, parts, added).node, prefix, path)
         == Or(LaterClaim(node, parts, prefix, path),
               Or(NewClaim(node, parts, added, prefix, path), FlatLookup(node, prefix, path)))
    decreases |parts|
  {
    hide ValidSchemaNode, FlatLookup, FlatProperty, FlatProperties, JoinPath, WithProperty, Get, AddBelow;
    AddedIsValid(node, parts, added);
    if |parts| == 1 || Property(node, parts[0]).None? {
      AppendedClaims(node, parts, added, prefix, path);
    } else {
      var name := parts[0];
      var child, own := Property(node, name).value, JoinPath(prefix, name);
      PropertyIsValid(node, name);
      ThroughChild(node, parts, added);
      AddedClaims(child, parts[1..], added, own, path);
      var grown := AddBelow(child, parts[1..], added).node;
      ClaimsOf(node, prefix, name, path);
      ClaimsWith(node, prefix, name, grown, path);
      ChildClaims(child, parts[1..], added, own, path);
    }
  }

  lemma ThroughChild(node: SchemaNode, parts: seq<string>, added: SchemaNode)
    requires |parts| > 1 && Property(node, parts[0]).Some? && AddBelow(node, parts, added).error.None?
    ensures AddBelow(Property(node, parts[0]).value, parts[1..], added).error.None?
    ensures AddBelow(node, parts, added).node
         == WithProperty(node, parts[0], AddBelow(Property(node, parts[0]).value, parts[1..], added).node)
  {
    hide WithProperty;
  }

  /** The grown child says the same about itself, and what the addition says about the rest. */
  lemma ChildClaims(child: SchemaNode, parts: seq<string>, added: SchemaNode, own: string, path: string)
    requires parts != [] && ValidSchemaNode(child) && ValidSchemaNode(added)
    requires AddBelow(child, parts, added).error.None? && ValidSchemaNode(AddBelow(child, parts, added).node)
    requires LaterClaim(child, parts, own, path).Some?
      ==> FlatLookup(child, own, path) == LaterClaim(child, parts, own, path)
    requires FlatLookup(AddBelow(child, parts, added).node, own, path)
          == Or(LaterClaim(child, parts, own, path),
                Or(NewClaim(child, parts, added, own, path), FlatLookup(child, own, path)))
    ensures LaterClaim(child, parts, own, path).Some?
      ==> FlatProperty(child, own, path) == LaterClaim(child, parts, own, path)
    ensures FlatProperty(AddBelow(child, parts, added).node, own, path)
         == Or(LaterClaim(child, parts, own, path),
               Or(NewClaim(child, parts, added, own, path), FlatProperty(child, own, path)))
  {
    hide ValidSchemaNode, FlatLookup, AddBelow, LaterClaim, NewClaim;
    OnlyFirstPart(child, parts, added);
    SameInfo(child, AddBelow(child, parts, added).node);
  }

  lemma SameInfo(a: SchemaNode, b: SchemaNode)
    requires ValidSchemaNode(a) && ValidSchemaNode(b) && b == a.(properties := b.properties)
    ensures InfoOf(a) == InfoOf(b)
  {
  }

  /** A property of a new name is appended, behind everything but the items. */
  lemma AppendedClaims(node: SchemaNode, parts: seq<string>, added: SchemaNode, prefix: string, path: string)
    requires parts != [] && ValidSchemaNode(node) && ValidSchemaNode(added)
    requires AddBelow(node, parts, added).error.None? && (|parts| == 1 || Property(node, parts[0]).None?)
    ensures ValidSchemaNode(AddBelow(node, parts, added).node)
    ensures LaterClaim(node, parts, prefix, path) == ItemsLookup(node, prefix, path)
    ensures ItemsLookup(node, prefix, path).Some? ==> FlatLookup(node, prefix, path) == ItemsLookup(node, prefix, path)
    ensures FlatLookup(AddBelow(node, parts, added).node, prefix, path)
         == Or(ItemsLookup(node, prefix, path),
               Or(NewClaim(node, parts, added, prefix, path), FlatLookup(node, prefix, path)))
  {
    hide ValidSchemaNode, FlatProperty, FlatProperties, JoinPath, WithProperty;
    AddedIsValid(node, parts, added);
    var property := Appended(parts, added);
    AppendsProperty(node, parts, added);
    NothingBehind(node.properties, parts[0]);
    ClaimsWith(node, prefix, parts[0], property, path);
    assert FlatProperties([], prefix, path).None? by { NoProperties(prefix, path); }
  }

  lemma NoProperties(prefix: string, path: string)
    ensures FlatProperties([], prefix, path).None?
  {
  }

  function Appended(parts: seq<string>, added: SchemaNode): (r: SchemaNode)
    requires parts != [] && ValidSchemaNode(added)
    ensures ValidSchemaNode(r)
  {
    if |parts| == 1 then added
    else
      FreshIsValid(parts[1..], added);
      AddBelow(WRITABLE_OBJECT, parts[1..], added).node
  }

  lemma AppendsProperty(node: SchemaNode, parts: seq<string>, added: SchemaNode)
    requires parts != [] && ValidSchemaNode(added) && AddBelow(node, parts, added).error.None?
    requires |parts| == 1 || Property(node, parts[0]).None?
    ensures Property(node, parts[0]).None?
    ensures AddBelow(node, parts, added).node == WithProperty(node, parts[0], Appended(parts, added))
  {
    if |parts| > 1 {
      FreshParent(node, parts[0]);
      InsertTwice(node.properties, parts[0], WRITABLE_OBJECT, Appended(parts, added));
    }
  }

  /**
   A path that had an answer keeps it exactly when a later claim stands, or the
   addition says nothing else about it. This holds for every tree, with dotted
   names and with items anywhere.
   */
  lemma LookupKeptExactly(node: SchemaNode, parts: seq<string>, added: SchemaNode, prefix: string, path: string)
    requires parts != [] && ValidSchemaNode(node) && ValidSchemaNode(added)
    requires AddBelow(node, parts, added).error.None? && FlatLookup(node, prefix, path).Some?
    ensures ValidSchemaNode(AddBelow(node, parts, added).node)
    ensures FlatLookup(AddBelow(node, parts, added).node, prefix, path) == FlatLookup(node, prefix, path) <==>
      || LaterClaim(node, parts, prefix, path).Some?
      || NewClaim(node, parts, added, prefix, path).None?
      || NewClaim(node, parts, added, prefix, path) == FlatLookup(node, prefix, path)
  {
    hide ValidSchemaNode, FlatLookup, AddBelow, LaterClaim, NewClaim;
    AddedClaims(node, parts, added, prefix, path);
  }
}
