/** Built registries for which preparation spoils a valid state: what it leaves is not settable (apply.rs). */
module PreparationLimits {
  import opened Wrappers
  import opened OrderedMaps
  import opened Values
  import opened Schemas
  import opened Conformance
  import opened Stripper
  import opened Preparation
  import opened PreparationLaws
  import opened SchemaExtension
  import opened SchemaRegistries
  import opened Providers

  // ---------------------------------------------------------------- one node added to the base

  /** A name that neither the base fragment nor a trigger uses. */
  predicate NewName(name: string) {
    DotFree(name) && name !in BASE_NAMES && name != "ipv4" && name != "ethernet"
  }

  /** The registry of a program that adds one node to the base fragment. */
  function Extended(text: IpText, name: string, node: SchemaNode): (r: SchemaRegistry)
    ensures ValidRegistry(r)
  {
    After(Embedded(text), [Call("base", name, node)])
  }

  /** What a query reports about a link that has the added field. */
  function Queried(name: string, value: Value): State {
    NewState(Static("")).(fields := [Entry("name", String("eth0")), Entry(name, value)])
  }

  lemma QueriedIsWellFormed(name: string, value: Value)
    requires NewName(name) && WellFormed(value)
    ensures WellFormedFields(Queried(name, value).fields) && Has(Queried(name, value).fields, "name")
    ensures Get(Queried(name, value).fields, "ipv4").None? && Get(Queried(name, value).fields, "ethernet").None?
  {
    assert BASE_NAMES[1] == "name";
    var fields := Queried(name, value).fields;
    assert fields[0].key == "name" && fields[1].key == name && fields[1..] == [fields[1]];
    assert fields[0].key != "ipv4" && fields[0].key != "ethernet";
  }

  lemma NameInBase()
    ensures Property(BASE_ROOT, "name") == Some(Scalar(StringType, false)) && BASE_ROOT.required == []
  {
    hide Get;
    BaseNames();
    assert BASE_NAMES[0] != "name" && BASE_NAMES[1] == "name";
    SecondGets(BASE_ROOT.properties, "name");
  }

  lemma SecondGets<V>(m: OrderedMap<V>, key: string)
    requires |m| >= 2 && m[0].key != key && m[1].key == key
    ensures Get(m, key) == Some(m[1].value)
  {
    assert m[1..][0] == m[1];
  }

  lemma NameConforms(w: Walk)
    ensures ValidSchemaNode(Scalar(StringType, false)) && Conforms(w, Scalar(StringType, false), String("eth0"))
  {
  }

  /** The added field conforms in a query result and is described by the added node. */
  ghost predicate Fits(node: SchemaNode, value: Value, text: IpText) {
    && ValidSchemaNode(node) && node.writable && WellFormed(value)
    && Conforms(Walk(text, "base", false), node, value)
  }

  lemma BaseConforms(registry: SchemaRegistry, base: Fragment, name: string, node: SchemaNode, value: Value)
    requires NewName(name) && Fits(node, value, registry.text)
    requires ValidFragment(base) && base.name == "base" && base.triggerKey == None
    requires base.root == GrownBase(name, node)
    ensures ConformsFragment(registry, base, Queried(name, value), false)
  {
    hide Conforms, ValidSchemaNode, Get, TriggerKeys, WellFormed;
    var s, w := Queried(name, value), Walk(registry.text, base.name, false);
    NameConforms(w);
    NameInBase();
    assert BASE_NAMES[1] == "name";
    forall e | e in s.fields ensures ConformsEntry(w, base.root, e, TriggerKeys(registry.fragments)) {
      assert e == Entry("name", String("eth0")) || e == Entry(name, value);
    }
  }

  lemma QueriedConforms(registry: SchemaRegistry, base: Fragment, ipv4: Fragment, ethernet: Fragment, name: string,
                        node: SchemaNode, value: Value)
    requires ValidRegistry(registry) && registry.fragments == [base, ipv4, ethernet]
    requires base.name == "base"
    requires base.triggerKey == None && ipv4.triggerKey == Some("ipv4") && ethernet.triggerKey == Some("ethernet")
    requires NewName(name) && Fits(node, value, registry.text) && base.root == GrownBase(name, node)
    ensures ConformsState(registry, Queried(name, value), false)
  {
    hide Conforms, ValidSchemaNode, ConformsFields, Fits, GrownBase, NewName, FindTrigger, Get, WellFormed;
    FitsIsWellFormed(node, value, registry.text);
    QueriedIsWellFormed(name, value);
    forall f | f in registry.fragments
      ensures ValidFragment(f) && ConformsFragment(registry, f, Queried(name, value), false)
    {
      assert f == base || f == ipv4 || f == ethernet;
      if f == base {
        BaseConforms(registry, base, name, node, value);
      }
    }
  }

  lemma FitsIsWellFormed(node: SchemaNode, value: Value, text: IpText)
    requires Fits(node, value, text)
    ensures WellFormed(value)
  {
  }

  lemma QueriedIsClean(registry: SchemaRegistry, base: Fragment, ipv4: Fragment, ethernet: Fragment, name: string,
                       node: SchemaNode, value: Value)
    requires ValidRegistry(registry) && registry.fragments == [base, ipv4, ethernet]
    requires base.triggerKey == None && ipv4.triggerKey == Some("ipv4") && ethernet.triggerKey == Some("ethernet")
    requires NewName(name) && ValidSchemaNode(node) && node.writable && base.root == GrownBase(name, node)
    ensures CleanState(registry, Queried(name, value), "name") <==> Clean(node, value)
  {
    hide Clean, ValidSchemaNode, ValidRegistry, Get, FindTrigger, TriggerKeys;
    TriggersOfThree(registry.fragments);
    NoTriggerOfThree(base, ipv4, ethernet, name);
    BaseRootIs(registry, base);
    NameInBase();
    assert BASE_NAMES[1] == "name";
    var added := Entry(name, value);
    assert added in Queried(name, value).fields;
    assert CleanTopEntry(registry, added) <==> Clean(node, value);
  }

  lemma ExtendedFragments(text: IpText, name: string, node: SchemaNode)
    requires NewName(name) && ValidSchemaNode(node)
    ensures AddNode(Embedded(text), "base", name, node).1.None?
    ensures Extended(text, name, node).fragments == [Regrown(Embedded(text).fragments[0], GrownBase(name, node)),
                                                     Embedded(text).fragments[1], Embedded(text).fragments[2]]
    ensures Extended(text, name, node).text == text && DistinctTriggers(Extended(text, name, node).fragments)
  {
    hide AddNode, After, ValidSchemaNode, DeriveFields, GrownBase, ValidRegistry;
    AddedToBase(text, name, node);
    AddNodeText(Embedded(text), "base", name, node);
  }

  lemma AddNodeText(registry: SchemaRegistry, fragment: string, path: string, node: SchemaNode)
    requires ValidRegistry(registry)
    ensures AddNode(registry, fragment, path, node).0.text == registry.text
  {
    hide ValidRegistry, ValidSchemaNode, AddBelow, DeriveFields, SplitPath;
  }

  /**
   On a registry that a program builds by one addition, preparing a conforming query
   result succeeds exactly when the added field is clean under the added node.
   */
  lemma ExtendedPreparesIffClean(text: IpText, name: string, node: SchemaNode, value: Value, display: Value -> string)
    requires NewName(name) && Fits(node, value, text)
    ensures var registry, options := Extended(text, name, node), Options(ByName, display);
            && AddNode(Embedded(text), "base", name, node).1.None?
            && Ready(registry, options, Reset(registry, Queried(name, value)))
            && (Prepare(registry, options, [Queried(name, value)]).Success? <==> Clean(node, value))
            && (!Clean(node, value) ==> Prepare(registry, options, [Queried(name, value)]).error.Invalid?)
  {
    hide ConformsState, CleanState, ValidRegistry, Prepare, Extended, AddNode, NewName, DistinctTriggers, Clean,
      ValidSchemaNode, GrownBase, WellFormed, Get;
    var registry, s := Extended(text, name, node), Queried(name, value);
    var options := Options(ByName, display);
    ExtendedFragments(text, name, node);
    QueriedIsWellFormed(name, value);
    ExtendedIsThree(registry, text, name, node, value);
    assert Reset(registry, s) == s;
    PreparationExact(registry, options, [s]);
    assert s in [s];
  }

  lemma ExtendedIsThree(registry: SchemaRegistry, text: IpText, name: string, node: SchemaNode, value: Value)
    requires ValidRegistry(registry) && registry.text == text && NewName(name) && Fits(node, value, text)
    requires registry.fragments == [Regrown(Embedded(text).fragments[0], GrownBase(name, node)),
                                    Embedded(text).fragments[1], Embedded(text).fragments[2]]
    ensures ConformsState(registry, Queried(name, value), false)
    ensures CleanState(registry, Queried(name, value), "name") <==> Clean(node, value)
  {
    hide ConformsState, CleanState, ValidRegistry, Clean, NewName, ValidSchemaNode, GrownBase, WellFormed, Conforms,
      DeriveFields;
    var base, ipv4, ethernet := registry.fragments[0], registry.fragments[1], registry.fragments[2];
    QueriedConforms(registry, base, ipv4, ethernet, name, node, value);
    QueriedIsClean(registry, base, ipv4, ethernet, name, node, value);
  }

  // ---------------------------------------------------------------- a required read-only field

  const READ_ONLY: SchemaNode := Scalar(IntegerType, false)

  const TAG: SchemaNode := Scalar(ObjectType, true).(properties := [Entry("ro", READ_ONLY)], required := ["ro"])

  const TAG_VALUE: Value := Map([Entry("ro", U64(1))])

  lemma TagFits(text: IpText)
    ensures Fits(TAG, TAG_VALUE, text) && !Clean(TAG, TAG_VALUE) && NewName("tag")
  {
    ReadOnlyObject(TAG);
    ReadOnlyConforms(Walk(text, "base", false), TAG);
    NewNames();
    var entry := Entry("ro", U64(1));
    assert !CleanEntry(TAG, entry);
    assert entry in [entry];
  }

  lemma NewNames()
    ensures NewName("tag") && NewName("grid")
  {
    forall i | 0 <= i < |BASE_NAMES| ensures BASE_NAMES[i] != "tag" && BASE_NAMES[i] != "grid" {
      assert BASE_NAMES[i] != "tag" && BASE_NAMES[i] != "grid";
    }
    assert DotFree("tag") && DotFree("grid");
  }

  /** An object whose only property is the read-only one. */
  lemma ReadOnlyObject(node: SchemaNode)
    requires node == TAG || node == CELL
    ensures ValidSchemaNode(node) && Property(node, "ro") == Some(READ_ONLY)
    ensures WellFormed(TAG_VALUE)
  {
    LeafIsValid(READ_ONLY);
    assert |node.properties| == 1;
    assert UniqueKeys(TAG_VALUE.entries);
  }

  lemma ReadOnlyConforms(w: Walk, node: SchemaNode)
    requires !w.writableOnly && (node == TAG || node == CELL)
    ensures ValidSchemaNode(node) && Conforms(w, node, TAG_VALUE)
  {
    ReadOnlyObject(node);
    var entry := Entry("ro", U64(1));
    PropertyIsValid(node, "ro");
    assert ConformsEntry(w, node, entry, []);
    assert Has([entry], "ro");
    assert ConformsFields(w, node, [entry], []);
  }

  /** Preparation removes the field although it is required. */
  lemma RequiredReadOnlyFieldSpoils(text: IpText, display: Value -> string)
    ensures var registry, options := Extended(text, "tag", TAG), Options(ByName, display);
            && AddNode(Embedded(text), "base", "tag", TAG).1.None?
            && Ready(registry, options, Reset(registry, Queried("tag", TAG_VALUE)))
            && Prepare(registry, options, [Queried("tag", TAG_VALUE)]).Failure?
            && Prepare(registry, options, [Queried("tag", TAG_VALUE)]).error.Invalid?
  {
    hide ValidRegistry, Prepare, Extended, AddNode, Ready, Reset, Clean, Fits, NewName, Embedded;
    TagFits(text);
    ExtendedPreparesIffClean(text, "tag", TAG, TAG_VALUE, display);
  }

  // ---------------------------------------------------------------- an array of arrays

  const CELL: SchemaNode := Scalar(ObjectType, true).(properties := [Entry("ro", READ_ONLY)])

  const ROW: SchemaNode := Scalar(ArrayType, true).(items := Some(CELL))

  const GRID: SchemaNode := Scalar(ArrayType, true).(items := Some(ROW))

  const ROW_VALUE: Value := List([TAG_VALUE])

  const GRID_VALUE: Value := List([ROW_VALUE])

  lemma GridFits(text: IpText)
    ensures Fits(GRID, GRID_VALUE, text) && !Clean(GRID, GRID_VALUE)
  {
    hide ConformsFields, WellFormedFields;
    var w := Walk(text, "base", false);
    ReadOnlyObject(CELL);
    ReadOnlyConforms(w, CELL);
    assert ValidSchemaNode(ROW) && ValidSchemaNode(GRID);
    assert Conforms(w, ROW, ROW_VALUE);
    assert WellFormed(ROW_VALUE);
    CellIsNotSettable();
    assert ROW_VALUE in [ROW_VALUE];
  }

  lemma CellIsNotSettable()
    ensures !Settable(ROW, ROW_VALUE)
  {
    ReadOnlyObject(CELL);
    var entry := Entry("ro", U64(1));
    assert entry in [entry] && !READ_ONLY.writable;
    assert !Settable(CELL, TAG_VALUE);
    assert TAG_VALUE in [TAG_VALUE];
  }

  /** Preparation does not enter an array inside an array, so a read-only field stays there. */
  lemma NestedArraySpoils(text: IpText, display: Value -> string)
    ensures var registry, options := Extended(text, "grid", GRID), Options(ByName, display);
            && AddNode(Embedded(text), "base", "grid", GRID).1.None?
            && Ready(registry, options, Reset(registry, Queried("grid", GRID_VALUE)))
            && Prepare(registry, options, [Queried("grid", GRID_VALUE)]).Failure?
            && Prepare(registry, options, [Queried("grid", GRID_VALUE)]).error.Invalid?
  {
    hide ValidRegistry, Prepare, Extended, AddNode, Ready, Reset, Clean, Fits, NewName, Embedded;
    GridFits(text);
    NewNames();
    ExtendedPreparesIffClean(text, "grid", GRID, GRID_VALUE, display);
  }
}
