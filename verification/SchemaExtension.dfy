/** Adding nodes to a schema registry: atomic, and conservative for every earlier field (schema.rs). */
module SchemaExtension {
  import opened Wrappers
  import opened OrderedMaps
  import opened Schemas

  datatype ExtensionError =
    | Malformed
    | InvalidPath
    | CollidesWithTrigger(name: string)
    | UnknownFragment(name: string)
    | NotAnObject(name: string)
    | AlreadyExists

  /** The tree as the descent leaves it, whether or not it succeeded. */
  datatype Descent = Descent(node: SchemaNode, error: Option<ExtensionError>)

  const WRITABLE_OBJECT: SchemaNode := Scalar(ObjectType, true)

  function SplitPath(path: string): (r: seq<string>)
    ensures r != [] && forall part | part in r :: '.' !in part
    decreases |path|
  {
    if '.' !in path then [path]
    else
      var parts := SplitOnce(path, '.');
      SplitOnceSplits(path, '.');
      [parts.value.0] + SplitPath(parts.value.1)
  }

  lemma {:induction false} SplitOnceSplits(s: string, separator: char)
    ensures SplitOnce(s, separator).Some? <==> separator in s
    ensures SplitOnce(s, separator).Some? ==>
      var parts := SplitOnce(s, separator).value;
      s == parts.0 + [separator] + parts.1 && separator !in parts.0
  {
    if s != "" && s[0] != separator {
      SplitOnceSplits(s[1..], separator);
    }
  }

  function WithProperty(node: SchemaNode, name: string, property: SchemaNode): SchemaNode {
    node.(properties := Insert(node.properties, name, property))
  }

  /** The parent with the named property, created as a writable closed object when it is missing. */
  function Opened(node: SchemaNode, name: string): (r: SchemaNode)
    ensures Property(r, name).Some?
  {
    if Property(node, name).Some? then node else WithProperty(node, name, WRITABLE_OBJECT)
  }

  /** Insert a node below another, creating the missing parents on the way down. */
  function AddBelow(node: SchemaNode, parts: seq<string>, added: SchemaNode): Descent
    requires parts != []
    decreases |parts|
  {
    if |parts| == 1 then
      if Property(node, parts[0]).Some? then Descent(node, Some(AlreadyExists))
      else Descent(WithProperty(node, parts[0], added), None)
    else
      var parent := Opened(node, parts[0]);
      var child := Property(parent, parts[0]).value;
      if child.fieldType != Some(ObjectType) then Descent(parent, Some(NotAnObject(parts[0])))
      else
        var below := AddBelow(child, parts[1..], added);
        Descent(WithProperty(parent, parts[0], below.node), below.error)
  }

  // ---------------------------------------------------------------- the descent in place

  /** The tree whose nodes along a path are the given ones. */
  function Rebuild(spine: seq<SchemaNode>, parts: seq<string>): SchemaNode
    requires 0 < |spine| <= |parts| + 1
  {
    if |spine| == 1 then spine[0] else WithProperty(spine[0], parts[0], Rebuild(spine[1..], parts[1..]))
  }

  lemma {:induction false} RebuildFolds(above: seq<SchemaNode>, parent: SchemaNode, child: SchemaNode,
                                        parts: seq<string>)
    requires |above| < |parts|
    ensures Rebuild(above + [parent, child], parts)
      == Rebuild(above + [WithProperty(parent, parts[|above|], child)], parts)
  {
    if above == [] {
      assert ([parent, child])[1..] == [child];
      assert above + [parent, child] == [parent, child];
      assert above + [WithProperty(parent, parts[0], child)] == [WithProperty(parent, parts[0], child)];
    } else {
      RebuildFolds(above[1..], parent, child, parts[1..]);
      assert (above + [parent, child])[1..] == above[1..] + [parent, child];
      var folded := WithProperty(parent, parts[|above|], child);
      assert (above + [folded])[1..] == above[1..] + [folded];
    }
  }

  /** Walk down by reference, inserting parents, then insert the node at the end of the path. */
  method Descend(root: SchemaNode, parts: seq<string>, added: SchemaNode)
    returns (tree: SchemaNode, error: Option<ExtensionError>)
    requires parts != []
    ensures Descent(tree, error) == AddBelow(root, parts, added)
  {
    hide WithProperty, Property, Opened, Insert;
    var above, parent, i := [], root, 0;
    assert [] + [AddBelow(root, parts, added).node] == [AddBelow(root, parts, added).node];
    while i < |parts| - 1
      invariant 0 <= i < |parts| && |above| == i
      invariant AddBelow(root, parts, added).error == AddBelow(parent, parts[i..], added).error
      invariant AddBelow(root, parts, added).node == Rebuild(above + [AddBelow(parent, parts[i..], added).node], parts)
      decreases |parts| - i
    {
      assert parts[i..][0] == parts[i] && parts[i..][1..] == parts[i + 1..];
      parent := Opened(parent, parts[i]);
      var child := Property(parent, parts[i]).value;
      if child.fieldType != Some(ObjectType) {
        return Rebuild(above + [parent], parts), Some(NotAnObject(parts[i]));
      }
      var below := AddBelow(child, parts[i + 1..], added).node;
      RebuildFolds(above, parent, below, parts);
      assert above + [parent] + [below] == above + [parent, below];
      above, parent, i := above + [parent], child, i + 1;
    }
    assert parts[i..] == [parts[i]];
    if Property(parent, parts[i]).Some? {
      return Rebuild(above + [parent], parts), Some(AlreadyExists);
    }
    tree, error := Rebuild(above + [WithProperty(parent, parts[i], added)], parts), None;
  }

  // ---------------------------------------------------------------- atomicity

  lemma FreshParent(node: SchemaNode, name: string)
    requires Property(node, name).None?
    ensures Property(Opened(node, name), name) == Some(WRITABLE_OBJECT)
    ensures forall part :: Property(WRITABLE_OBJECT, part).None?
  {
  }

  /** Nothing can fail below a parent that the descent has just created. */
  lemma {:induction false} FreshNeverFails(node: SchemaNode, parts: seq<string>, added: SchemaNode)
    requires parts != [] && node.properties == []
    ensures AddBelow(node, parts, added).error.None?
    decreases |parts|
  {
    if |parts| > 1 {
      FreshParent(node, parts[0]);
      FreshNeverFails(WRITABLE_OBJECT, parts[1..], added);
    }
  }

  /** A failed addition leaves the tree as it was, although it inserts parents while it descends. */
  lemma {:induction false} FailureChangesNothing(node: SchemaNode, parts: seq<string>, added: SchemaNode)
    requires parts != [] && AddBelow(node, parts, added).error.Some?
    ensures AddBelow(node, parts, added).node == node
    decreases |parts|
  {
    if |parts| > 1 {
      if Property(node, parts[0]).None? {
        FreshParent(node, parts[0]);
        FreshNeverFails(WRITABLE_OBJECT, parts[1..], added);
      } else if Property(node, parts[0]).value.fieldType == Some(ObjectType) {
        FailureChangesNothing(Property(node, parts[0]).value, parts[1..], added);
        InsertSame(node.properties, parts[0]);
      }
    }
  }

  // ---------------------------------------------------------------- what the new tree holds

  /** The node a path of names leads to. */
  function NodeAt(node: SchemaNode, parts: seq<string>): Option<SchemaNode> {
    if parts == [] then Some(node)
    else match Property(node, parts[0])
         case None => None
         case Some(child) => NodeAt(child, parts[1..])
  }

  /** On success the path leads to the added node, which it did not before. */
  lemma {:induction false} AddedIsThere(node: SchemaNode, parts: seq<string>, added: SchemaNode)
    requires parts != [] && AddBelow(node, parts, added).error.None?
    ensures NodeAt(AddBelow(node, parts, added).node, parts) == Some(added)
    ensures NodeAt(node, parts) == None
    decreases |parts|
  {
    if |parts| > 1 {
      AddedIsThere(Property(Opened(node, parts[0]), parts[0]).value, parts[1..], added);
    }
  }

  /** Addition only ever changes the property the path begins with. */
  lemma OnlyFirstPart(node: SchemaNode, parts: seq<string>, added: SchemaNode)
    requires parts != []
    ensures forall name | name != parts[0] :: Property(AddBelow(node, parts, added).node, name) == Property(node, name)
    ensures AddBelow(node, parts, added).node == node.(properties := AddBelow(node, parts, added).node.properties)
  {
    hide Get, Insert;
  }

  lemma {:induction false} InsertedIsValid(properties: OrderedMap<SchemaNode>, name: string, node: SchemaNode)
    requires ValidSchemaNode(node) && forall e | e in properties :: ValidSchemaNode(e.value)
    ensures forall e | e in Insert(properties, name, node) :: ValidSchemaNode(e.value)
  {
    if properties != [] && properties[0].key != name {
      InsertedIsValid(properties[1..], name, node);
    }
  }

  lemma WithPropertyIsValid(node: SchemaNode, name: string, property: SchemaNode)
    requires ValidSchemaNode(node) && ValidSchemaNode(property)
    ensures ValidSchemaNode(WithProperty(node, name, property))
  {
    InsertedIsValid(node.properties, name, property);
  }

  lemma {:induction false} AddedIsValid(node: SchemaNode, parts: seq<string>, added: SchemaNode)
    requires parts != [] && ValidSchemaNode(node) && ValidSchemaNode(added)
    ensures ValidSchemaNode(AddBelow(node, parts, added).node)
    decreases |parts|
  {
    hide ValidSchemaNode, WithProperty, Property;
    if |parts| == 1 {
      WithPropertyIsValid(node, parts[0], added);
    } else {
      LeafIsValid(WRITABLE_OBJECT);
      if Property(node, parts[0]).None? {
        WithPropertyIsValid(node, parts[0], WRITABLE_OBJECT);
      }
      var parent := Opened(node, parts[0]);
      PropertyIsValid(parent, parts[0]);
      var child := Property(parent, parts[0]).value;
      if child.fieldType == Some(ObjectType) {
        AddedIsValid(child, parts[1..], added);
        WithPropertyIsValid(parent, parts[0], AddBelow(child, parts[1..], added).node);
      }
    }
  }
}
