/** When a schema addition is refused, and what tree it leaves when it is not (schema.rs). */
module Additions {
  import opened Wrappers
  import opened OrderedMaps
  import opened Latest
  import opened Schemas
  import opened SchemaExtension
  import opened SchemaRegistries

  // ---------------------------------------------------------------- paths

  /** The components with dots between them. */
  function Dotted(parts: seq<string>): string
    requires parts != []
  {
    if |parts| == 1 then parts[0] else parts[0] + "." + Dotted(parts[1..])
  }

  /** A path is split at every dot. */
  lemma {:induction false} SplitPathMeans(path: string)
    ensures Dotted(SplitPath(path)) == path
    decreases |path|
  {
    if '.' in path {
      SplitOnceSplits(path, '.');
      var parts := SplitOnce(path, '.').value;
      SplitPathMeans(parts.1);
      assert SplitPath(path)[1..] == SplitPath(parts.1);
    }
  }

  lemma {:induction false} DottedSplits(parts: seq<string>)
    requires parts != [] && forall part | part in parts :: '.' !in part
    ensures SplitPath(Dotted(parts)) == parts
    decreases |parts|
  {
    assert parts[0] in parts;
    if |parts| > 1 {
      var rest := parts[1..];
      DottedSplits(rest);
      SplitOnceAt(parts[0], Dotted(rest), '.');
      assert Dotted(parts) == parts[0] + ['.'] + Dotted(rest);
      assert Dotted(parts)[|parts[0]|] == '.';
      assert parts == [parts[0]] + rest;
    }
  }

  // ---------------------------------------------------------------- well-formed schemas

  /** A node of a schema tree, the root itself included. */
  ghost predicate IsNodeOf(root: SchemaNode, node: SchemaNode)
    decreases root
  {
    || node == root
    || (exists e | e in root.properties :: IsNodeOf(e.value, node))
    || (root.items.Some? && IsNodeOf(root.items.value, node))
  }

  ghost predicate IsTyped(node: SchemaNode) {
    && node.fieldType.Some?
    && node.fieldType.value !in {IpAddressType, IpNetworkType}
    && (node.format.Some? ==> node.fieldType == Some(StringType))
  }

  lemma TypedMeans(node: SchemaNode)
    ensures IsTyped(node) <==>
            && SemanticType(node).Some?
            && node.fieldType != Some(IpAddressType) && node.fieldType != Some(IpNetworkType)
  {
    assert node.format.Some? ==> node.format.value.Ipv4Cidr?;
  }

  /** Every node needs a type that can be written down, and the type text where it has a format. */
  lemma {:induction false} ValidIffTyped(root: SchemaNode)
    ensures ValidSchemaNode(root) <==> forall node | IsNodeOf(root, node) :: IsTyped(node)
    decreases root
  {
    hide IsTyped, SemanticType;
    TypedMeans(root);
    forall e | e in root.properties
      ensures ValidSchemaNode(e.value) <==> forall node | IsNodeOf(e.value, node) :: IsTyped(node)
    {
      ValidIffTyped(e.value);
    }
    if root.items.Some? {
      ValidIffTyped(root.items.value);
    }
    assert IsNodeOf(root, root);
    if forall node | IsNodeOf(root, node) :: IsTyped(node) {
      forall e | e in root.properties ensures ValidSchemaNode(e.value) {
        forall node | IsNodeOf(e.value, node) ensures IsTyped(node) {
          assert IsNodeOf(root, node);
        }
      }
    }
  }

  // ---------------------------------------------------------------- refusals

  /** What the first `n` components lead to. */
  function Led(root: SchemaNode, parts: seq<string>, n: nat): Option<SchemaNode>
    requires n <= |parts|
  {
    NodeAt(root, parts[..n])
  }

  /** The first component before the last that leads to something which is no object. */
  ghost predicate BlockedAt(root: SchemaNode, parts: seq<string>, n: nat) {
    && 1 <= n < |parts|
    && Led(root, parts, n).Some? && Led(root, parts, n).value.fieldType != Some(ObjectType)
    && forall j | 1 <= j < n && Led(root, parts, j).Some? :: Led(root, parts, j).value.fieldType == Some(ObjectType)
  }

  ghost predicate Blocked(root: SchemaNode, parts: seq<string>) {
    exists n: nat :: BlockedAt(root, parts, n)
  }

  lemma LedBelow(root: SchemaNode, parts: seq<string>, n: nat)
    requires 1 <= n <= |parts|
    ensures Led(root, parts, n) ==
            if Property(root, parts[0]).None? then None else Led(Property(root, parts[0]).value, parts[1..], n - 1)
  {
    assert parts[..n][0] == parts[0] && parts[..n][1..] == parts[1..][..n - 1];
  }

  lemma LedFirst(root: SchemaNode, parts: seq<string>)
    requires parts != []
    ensures Led(root, parts, 1) == Property(root, parts[0])
  {
    assert parts[..1][0] == parts[0] && parts[..1][1..] == [];
    match Property(root, parts[0]) {
      case None =>
      case Some(child) => assert NodeAt(child, []) == Some(child);
    }
  }

  lemma BlockedBelow(root: SchemaNode, parts: seq<string>, n: nat)
    requires |parts| > 1 && Property(root, parts[0]).Some?
    requires Property(root, parts[0]).value.fieldType == Some(ObjectType)
    ensures BlockedAt(root, parts, n + 1) <==> BlockedAt(Property(root, parts[0]).value, parts[1..], n)
    ensures !BlockedAt(root, parts, 0)
  {
    hide Led;
    var child := Property(root, parts[0]).value;
    LedFirst(root, parts);
    forall j: nat | 1 <= j <= |parts| ensures Led(root, parts, j) == Led(child, parts[1..], j - 1) {
      LedBelow(root, parts, j);
    }
    if BlockedAt(child, parts[1..], n) {
      forall j | 1 <= j < n + 1 && Led(root, parts, j).Some?
        ensures Led(root, parts, j).value.fieldType == Some(ObjectType)
      {
        assert j > 1 ==> Led(child, parts[1..], j - 1) == Led(root, parts, j);
      }
    }
    if BlockedAt(root, parts, n + 1) {
      assert n >= 1;
      forall j | 1 <= j < n && Led(child, parts[1..], j).Some?
        ensures Led(child, parts[1..], j).value.fieldType == Some(ObjectType)
      {
        assert Led(root, parts, j + 1) == Led(child, parts[1..], j);
      }
    }
  }

  /** The descent fails at the first component that is no object, or else if the path already leads somewhere. */
  lemma {:induction false} DescentFails(root: SchemaNode, parts: seq<string>, added: SchemaNode)
    requires parts != []
    ensures forall name ::
              AddBelow(root, parts, added).error == Some(NotAnObject(name))
              <==> exists n: nat | BlockedAt(root, parts, n) :: parts[n - 1] == name
    ensures AddBelow(root, parts, added).error == Some(AlreadyExists)
            <==> !Blocked(root, parts) && NodeAt(root, parts).Some?
    ensures AddBelow(root, parts, added).error == None
            <==> !Blocked(root, parts) && NodeAt(root, parts).None?
    ensures var error := AddBelow(root, parts, added).error;
            error.None? || error.value.AlreadyExists? || error.value.NotAnObject?
    decreases |parts|
  {
    hide BlockedAt, WithProperty;
    forall n: nat | BlockedAt(root, parts, n) ensures 1 <= n < |parts| {
      BlockedIsInside(root, parts, n);
    }
    if |parts| == 1 {
      assert NodeAt(root, parts) == Property(root, parts[0]);
    } else if Property(root, parts[0]).None? {
      FreshParent(root, parts[0]);
      FreshNeverFails(WRITABLE_OBJECT, parts[1..], added);
      NowhereNotBlocked(root, parts);
    } else {
      var child := Property(root, parts[0]).value;
      if child.fieldType == Some(ObjectType) {
        DescentFails(child, parts[1..], added);
        BlockedFurther(root, parts);
      } else {
        BlockedFirst(root, parts);
        assert BlockedAt(root, parts, 1);
        assert AddBelow(root, parts, added).error == Some(NotAnObject(parts[0]));
      }
    }
  }

  lemma BlockedFurther(root: SchemaNode, parts: seq<string>)
    requires |parts| > 1 && Property(root, parts[0]).Some?
    requires Property(root, parts[0]).value.fieldType == Some(ObjectType)
    ensures forall n: nat | BlockedAt(root, parts, n) ::
              && 1 < n < |parts| && BlockedAt(Property(root, parts[0]).value, parts[1..], n - 1)
              && parts[n - 1] == parts[1..][n - 2]
    ensures forall n: nat | BlockedAt(Property(root, parts[0]).value, parts[1..], n) ::
              BlockedAt(root, parts, n + 1) && 1 <= n < |parts| && parts[n] == parts[1..][n - 1]
  {
    hide BlockedAt;
    var child := Property(root, parts[0]).value;
    forall n: nat | BlockedAt(root, parts, n)
      ensures n > 1 && BlockedAt(child, parts[1..], n - 1) && n < |parts| && parts[n - 1] == parts[1..][n - 2]
    {
      BlockedIsInside(root, parts, n);
      BlockedBelow(root, parts, n - 1);
      BlockedIsInside(child, parts[1..], n - 1);
    }
    forall n: nat | BlockedAt(child, parts[1..], n)
      ensures BlockedAt(root, parts, n + 1) && 1 <= n < |parts| && parts[n] == parts[1..][n - 1]
    {
      BlockedBelow(root, parts, n);
      BlockedIsInside(child, parts[1..], n);
    }
  }

  lemma BlockedIsInside(root: SchemaNode, parts: seq<string>, n: nat)
    requires BlockedAt(root, parts, n)
    ensures 1 <= n < |parts|
  {
  }

  lemma NowhereNotBlocked(root: SchemaNode, parts: seq<string>)
    requires parts != [] && Property(root, parts[0]).None?
    ensures forall n: nat :: !BlockedAt(root, parts, n)
    ensures NodeAt(root, parts).None?
  {
    forall n: nat ensures !BlockedAt(root, parts, n) {
      if 1 <= n <= |parts| {
        LedBelow(root, parts, n);
      }
    }
  }

  lemma BlockedFirst(root: SchemaNode, parts: seq<string>)
    requires |parts| > 1 && Property(root, parts[0]).Some?
    requires Property(root, parts[0]).value.fieldType != Some(ObjectType)
    ensures forall n: nat :: BlockedAt(root, parts, n) <==> n == 1
  {
    LedFirst(root, parts);
  }

  // ---------------------------------------------------------------- the tree that results

  /** A parent that the addition has to create: an object that can be set and allows nothing else. */
  const NEW_PARENT: SchemaNode :=
    SchemaNode(Some(ObjectType), None, true, None, None, None, [], [], None, false, None)

  function Names(properties: OrderedMap<SchemaNode>): (r: seq<string>)
    ensures |r| == |properties|
    ensures forall i | 0 <= i < |r| :: r[i] == properties[i].key
  {
    seq(|properties|, i requires 0 <= i < |properties| => properties[i].key)
  }

  /** A node on the way: as it was, or as a new parent, with the next component among its properties, last if new. */
  ghost predicate IsOnTheWay(was: Option<SchemaNode>, next: string, node: SchemaNode) {
    var before := if was.Some? then was.value else NEW_PARENT;
    && node.(properties := []) == before.(properties := [])
    && Names(node.properties) ==
       Names(before.properties) + (if Get(before.properties, next).None? then [next] else [])
  }

  lemma InsertedNames(m: OrderedMap<SchemaNode>, key: string, value: SchemaNode)
    ensures Names(Insert(m, key, value)) == Names(m) + (if Get(m, key).None? then [key] else [])
  {
    hide Insert, Get;
    var at := InsertAt(m, key, value);
    if at < |m| {
      assert m[at] in m;
      assert Names(m[at := Entry(key, value)]) == Names(m);
    } else {
      assert Names(m + [Entry(key, value)]) == Names(m) + [key];
    }
  }

  /** What a path leads to in the new tree. */
  ghost predicate LeadsAsGrown(root: SchemaNode, parts: seq<string>, added: SchemaNode, grown: SchemaNode,
                               path: seq<string>) {
    if parts <= path then NodeAt(grown, path) == NodeAt(added, path[|parts|..])
    else if path <= parts
    then NodeAt(grown, path).Some? && IsOnTheWay(NodeAt(root, path), parts[|path|], NodeAt(grown, path).value)
    else NodeAt(grown, path) == NodeAt(root, path)
  }

  /** The node is at the end of the path, its parents are there, and every other path leads where it did. */
  lemma {:induction false} GrownTree(root: SchemaNode, parts: seq<string>, added: SchemaNode, path: seq<string>)
    requires parts != [] && AddBelow(root, parts, added).error.None?
    ensures LeadsAsGrown(root, parts, added, AddBelow(root, parts, added).node, path)
    decreases |parts|
  {
    hide Insert, Get, IsOnTheWay;
    var grown := AddBelow(root, parts, added).node;
    if path == [] {
      GrownRoot(root, parts, added);
    } else if path[0] != parts[0] {
      OnlyFirstPart(root, parts, added);
    } else if |parts| == 1 {
      assert parts <= path && path[1..] == path[|parts|..];
    } else {
      var rest, parent := parts[1..], Opened(root, parts[0]);
      var child := Property(parent, parts[0]).value;
      GrownTree(child, rest, added, path[1..]);
      assert Property(grown, parts[0]) == Some(AddBelow(child, rest, added).node);
      assert parts <= path <==> rest <= path[1..];
      assert path <= parts <==> path[1..] <= rest;
      assert parts <= path ==> path[1..][|rest|..] == path[|parts|..];
      if Property(root, parts[0]).None? {
        FreshParent(root, parts[0]);
        NewBelow(path[1..], rest);
      }
    }
  }

  lemma NewBelow(path: seq<string>, rest: seq<string>)
    ensures path != [] ==> NodeAt(WRITABLE_OBJECT, path) == None
    ensures path == [] && rest != [] ==>
              forall node :: IsOnTheWay(Some(WRITABLE_OBJECT), rest[0], node) ==> IsOnTheWay(None, rest[0], node)
  {
  }

  lemma GrownRoot(root: SchemaNode, parts: seq<string>, added: SchemaNode)
    requires parts != [] && AddBelow(root, parts, added).error.None?
    ensures IsOnTheWay(Some(root), parts[0], AddBelow(root, parts, added).node)
  {
    if |parts| == 1 {
      InsertedNames(root.properties, parts[0], added);
    } else {
      var parent := Opened(root, parts[0]);
      var child := Property(parent, parts[0]).value;
      InsertedNames(root.properties, parts[0], WRITABLE_OBJECT);
      InsertedNames(parent.properties, parts[0], AddBelow(child, parts[1..], added).node);
    }
  }

  // ---------------------------------------------------------------- calls

  /** The first fragment of that name. */
  ghost predicate IsTarget(fragments: seq<Fragment>, name: string, i: nat) {
    && i < |fragments| && fragments[i].name == name
    && forall j | 0 <= j < i :: fragments[j].name != name
  }

  ghost predicate ShadowsTrigger(registry: SchemaRegistry, fragment: string, parts: seq<string>)
    requires parts != []
  {
    && (exists i: nat | IsTarget(registry.fragments, fragment, i) :: registry.fragments[i].triggerKey == None)
    && exists f | f in registry.fragments :: f.triggerKey == Some(parts[0])
  }

  /** The answers to an addition, each with its condition, and the registry after a successful one. */
  lemma AdditionMeans(registry: SchemaRegistry, fragment: string, path: string, added: SchemaNode)
    requires ValidRegistry(registry)
    ensures var (after, error) := AddNode(registry, fragment, path, added);
            var parts := SplitPath(path);
            var fine := ValidSchemaNode(added) && "" !in parts && !ShadowsTrigger(registry, fragment, parts);
            && (error == Some(Malformed) <==> !ValidSchemaNode(added))
            && (error == Some(InvalidPath) <==> ValidSchemaNode(added) && "" in parts)
            && (error == Some(CollidesWithTrigger(parts[0])) <==>
                  ValidSchemaNode(added) && "" !in parts && ShadowsTrigger(registry, fragment, parts))
            && (error == Some(UnknownFragment(fragment)) <==>
                  fine && forall f | f in registry.fragments :: f.name != fragment)
            && (error.Some? ==> after == registry)
            && forall i: nat | fine && IsTarget(registry.fragments, fragment, i) ::
                 var root := registry.fragments[i].root;
                 && (forall name ::
                       error == Some(NotAnObject(name)) <==>
                       exists n: nat | BlockedAt(root, parts, n) :: parts[n - 1] == name)
                 && (error == Some(AlreadyExists) <==> !Blocked(root, parts) && NodeAt(root, parts).Some?)
                 && (error == None <==> !Blocked(root, parts) && NodeAt(root, parts).None?)
                 && (error == None ==>
                       && after.text == registry.text && |after.fragments| == |registry.fragments|
                       && (forall j | 0 <= j < |after.fragments| && j != i ::
                             after.fragments[j] == registry.fragments[j])
                       && after.fragments[i] ==
                          registry.fragments[i].(root := after.fragments[i].root, fields := after.fragments[i].fields)
                       && (forall q :: LeadsAsGrown(root, parts, added, after.fragments[i].root, q)))
  {
    hide ValidRegistry, ValidSchemaNode, AddBelow, DeriveFields, SplitPath, BlockedAt, LeadsAsGrown, NodeAt;
    var parts, i := SplitPath(path), FragmentIndex(registry.fragments, fragment);
    TargetIsFirst(registry.fragments, fragment);
    TriggerIsFound(registry.fragments, parts[0]);
    if i < |registry.fragments| {
      var root := registry.fragments[i].root;
      DescentFails(root, parts, added);
      if AddBelow(root, parts, added).error.None? {
        forall q ensures LeadsAsGrown(root, parts, added, AddBelow(root, parts, added).node, q) {
          GrownTree(root, parts, added, q);
        }
      }
    }
  }

  lemma TargetIsFirst(fragments: seq<Fragment>, name: string)
    ensures forall i: nat :: IsTarget(fragments, name, i) <==> i == FragmentIndex(fragments, name) < |fragments|
    ensures FragmentIndex(fragments, name) == |fragments| <==> forall f | f in fragments :: f.name != name
  {
    var i := FragmentIndex(fragments, name);
    if i < |fragments| {
      assert fragments[i] in fragments;
    }
  }

  lemma {:induction false} TriggerIsFound(fragments: seq<Fragment>, key: string)
    ensures FindTrigger(fragments, Some(key)).Some? <==> exists f | f in fragments :: f.triggerKey == Some(key)
  {
    if fragments != [] {
      TriggerIsFound(fragments[1..], key);
      assert fragments == [fragments[0]] + fragments[1..];
    }
  }
}
