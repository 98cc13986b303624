/** A dotted property name makes an addition change an earlier lookup (schema.rs). */
module LookupLimits {
  import opened Wrappers
  import opened OrderedMaps
  import opened Schemas
  import opened PreparationLaws
  import opened SchemaExtension
  import opened FlatLookups
  import opened LookupClaims
  import opened SchemaRegistries
  import opened Providers

  const PATH: string := "a.b.c"

  const TEXT: SchemaNode := Scalar(StringType, false)
  const FLAG: SchemaNode := Scalar(BooleanType, true)

  /** An object with one property, whose name contains a dot. */
  const DOTTED: SchemaNode := Scalar(ObjectType, true).(properties := [Entry("b.c", TEXT)])

  lemma DottedIsValid()
    ensures ValidSchemaNode(TEXT) && ValidSchemaNode(FLAG) && ValidSchemaNode(DOTTED)
    ensures Property(DOTTED, "b").None?
  {
    var node := DOTTED;
    LeafIsValid(TEXT);
    LeafIsValid(FLAG);
    assert |node.properties| == 1 && node.properties[0].key == "b.c";
    assert |"b.c"| != |"b"|;
  }

  /** The base fragment of a program that adds that object under `a`. */
  function DottedRoot(): (r: SchemaNode)
    ensures ValidSchemaNode(r)
  {
    DottedIsValid();
    GrownBase("a", DOTTED)
  }

  function DottedRegistry(text: IpText): (r: SchemaRegistry)
    ensures ValidRegistry(r)
  {
    After(Embedded(text), [Call("base", "a", DOTTED)])
  }

  lemma NewName()
    ensures "a" !in BASE_NAMES && "a" != "ipv4" && "a" != "ethernet"
    ensures DotFree("a") && DotFree("b") && DotFree("c")
  {
    forall i | 0 <= i < |BASE_NAMES| ensures BASE_NAMES[i] != "a" {
      assert |BASE_NAMES[i]| > 1;
    }
  }

  lemma {:induction false} NothingBehindLast(properties: OrderedMap<SchemaNode>, last: Entry<SchemaNode>)
    requires Get(properties, last.key).None?
    ensures Behind(properties + [last], last.key) == []
  {
    if properties != [] {
      NothingBehindLast(properties[1..], last);
      assert (properties + [last])[1..] == properties[1..] + [last];
    }
  }

  lemma RootOfDotted()
    ensures DottedRoot().properties == BASE_ROOT.properties + [Entry("a", DOTTED)] && DottedRoot().items.None?
    ensures Property(DottedRoot(), "a") == Some(DOTTED) && Behind(DottedRoot().properties, "a") == []
  {
    hide Get, Insert, Behind;
    NewName();
    NotInBase("a");
    AppendNew(BASE_ROOT.properties, "a", DOTTED);
    NothingBehindLast(BASE_ROOT.properties, Entry("a", DOTTED));
  }

  lemma DottedFragments(text: IpText)
    ensures AddNode(Embedded(text), "base", "a", DOTTED).1.None?
    ensures DottedRegistry(text).fragments == [Regrown(Embedded(text).fragments[0], DottedRoot()),
                                               Embedded(text).fragments[1], Embedded(text).fragments[2]]
  {
    hide AddNode, After, ValidSchemaNode, GrownBase;
    DottedIsValid();
    NewName();
    AddedToBase(text, "a", DOTTED);
  }

  // ---------------------------------------------------------------- claims on the path

  lemma LastProperty(properties: OrderedMap<SchemaNode>, e: Entry<SchemaNode>, prefix: string, path: string)
    requires ValidProperties(properties) && properties != [] && properties[|properties| - 1] == e
    requires FlatProperty(e.value, JoinPath(prefix, e.key), path).Some?
    ensures FlatProperties(properties, prefix, path) == FlatProperty(e.value, JoinPath(prefix, e.key), path)
  {
    hide FlatProperty, ValidSchemaNode, JoinPath;
    if |properties| == 1 {
      assert properties[1..] == [];
    } else {
      LastProperty(properties[1..], e, prefix, path);
    }
  }

  lemma OwnClaim(node: SchemaNode, own: string)
    requires ValidSchemaNode(node) && own != ""
    ensures FlatProperty(node, own, own) == Some(InfoOf(node))
  {
    hide FlatProperty, ValidSchemaNode;
    PropertyIsUnder(node, own, own);
  }

  lemma Joined()
    ensures JoinPath("", "a") == "a" && JoinPath("a", "b.c") == PATH
    ensures JoinPath("a", "b") == "a.b" && JoinPath("a.b", "c") == PATH
  {
  }

  /** The parent answers with its last property. */
  lemma ParentClaim(node: SchemaNode, e: Entry<SchemaNode>, own: string)
    requires ValidSchemaNode(node) && node.items.None? && node.properties != []
    requires node.properties[|node.properties| - 1] == e && ValidSchemaNode(e.value)
    requires FlatProperty(e.value, JoinPath(own, e.key), PATH).Some?
    ensures FlatLookup(node, own, PATH) == FlatProperty(node, own, PATH)
      == FlatProperty(e.value, JoinPath(own, e.key), PATH)
  {
    hide JoinPath;
    LastProperty(node.properties, e, own, PATH);
  }

  lemma DottedClaim()
    ensures FlatLookup(DottedRoot(), "", PATH) == Some(FieldInfo(false, StringType))
  {
    hide FlatLookup, FlatProperty, JoinPath;
    RootOfDotted();
    DottedIsValid();
    Joined();
    OwnClaim(TEXT, PATH);
    ParentClaim(DOTTED, Entry("b.c", TEXT), "a");
    ParentClaim(DottedRoot(), Entry("a", DOTTED), "");
  }

  lemma AddedFlag()
    ensures AddBelow(DottedRoot(), ["a", "b", "c"], FLAG).error.None?
    ensures ValidSchemaNode(FLAG)
    ensures LaterClaim(DottedRoot(), ["a", "b", "c"], "", PATH).None?
    ensures NewClaim(DottedRoot(), ["a", "b", "c"], FLAG, "", PATH) == Some(FieldInfo(true, BooleanType))
  {
    hide FlatLookup, FlatProperty, JoinPath, Get, Insert, FlatProperties;
    RootOfDotted();
    DottedIsValid();
    Joined();
    assert ["a", "b", "c"][1..] == ["b", "c"] && ["b", "c"][1..] == ["c"];
    FreshFlag();
    FreshParent(DOTTED, "b");
    AddBelowChild();
    NoProperties("", PATH);
  }

  lemma AddBelowChild()
    ensures AddBelow(DOTTED, ["b", "c"], FLAG).error.None?
  {
    DottedIsValid();
    FreshParent(DOTTED, "b");
    assert ["b", "c"][1..] == ["c"];
  }

  lemma FreshFlag()
    ensures ValidSchemaNode(AddBelow(WRITABLE_OBJECT, ["c"], FLAG).node)
    ensures FlatProperty(AddBelow(WRITABLE_OBJECT, ["c"], FLAG).node, "a.b", PATH) == Some(FieldInfo(true, BooleanType))
  {
    hide FlatLookup, FlatProperty, JoinPath;
    DottedIsValid();
    Joined();
    FreshIsValid(["c"], FLAG);
    var parent := AddBelow(WRITABLE_OBJECT, ["c"], FLAG).node;
    assert parent.properties == [Entry("c", FLAG)];
    OwnClaim(FLAG, PATH);
    ParentClaim(parent, Entry("c", FLAG), "a.b");
  }

  // ---------------------------------------------------------------- the registry

  lemma SplitsThree()
    ensures SplitPath(PATH) == ["a", "b", "c"]
  {
    assert PATH == "a" + "." + "b.c";
    SplitOnceAt("a", "b.c", '.');
    SplitTwo("b", "c");
    assert "b" + "." + "c" == "b.c";
    assert PATH[1] == '.';
  }

  lemma DottedCollides(registry: SchemaRegistry, base: Fragment, ipv4: Fragment, ethernet: Fragment)
    requires ValidRegistry(registry) && registry.fragments == [base, ipv4, ethernet] && base.root == DottedRoot()
    requires base.name == "base" && ipv4.name == "ipv4"
    requires base.triggerKey == None && ipv4.triggerKey == Some("ipv4") && ethernet.triggerKey == Some("ethernet")
    ensures LookupField(registry, "base", PATH) == Some(FieldInfo(false, StringType))
    ensures AddNode(registry, "base", PATH, FLAG).1.None?
    ensures LookupField(AddNode(registry, "base", PATH, FLAG).0, "base", PATH) != LookupField(registry, "base", PATH)
  {
    hide FlatLookup, AddBelow, LaterClaim, NewClaim, SplitPath, Get, ValidSchemaNode, DeriveFields, FindTrigger,
      FragmentIndex, DottedRoot, AddNode, ValidRegistry, DotFree, FindFragment;
    var call := Call("base", PATH, FLAG);
    DottedIsValid();
    SplitsThree();
    AddedFlag();
    DottedClaim();
    NewName();
    FlatMapIsTheTree(base.root, "", [], PATH);
    NothingIsEmpty(PATH);
    FragmentIsValid(registry, 0);
    FoundByIndex(registry.fragments, "base");
    IndexOfThree(base, ipv4, ethernet);
    NoTriggerOfThree(base, ipv4, ethernet, "a");
    CallResult(registry, 0, call, ["a", "b", "c"]);
    AddNodeKeepsLookupsExactly(registry, call, "base", PATH);
  }

  /**
   On a registry that a program can build, a property named `b.c` under `a` answers
   for `a.b.c` until a node is added at that path.
   */
  lemma DottedNamesCollide(text: IpText)
    ensures var registry := DottedRegistry(text);
            && AddNode(Embedded(text), "base", "a", DOTTED).1.None?
            && LookupField(registry, "base", PATH) == Some(FieldInfo(false, StringType))
            && AddNode(registry, "base", PATH, FLAG).1.None?
            && LookupField(AddNode(registry, "base", PATH, FLAG).0, "base", PATH) != LookupField(registry, "base", PATH)
  {
    hide ValidSchemaNode, DeriveFields, DottedRegistry, DottedRoot, AddNode, ValidRegistry, LookupField;
    var registry := DottedRegistry(text);
    DottedFragments(text);
    DottedCollides(registry, registry.fragments[0], registry.fragments[1], registry.fragments[2]);
  }
}
