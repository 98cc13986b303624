/** Places inside a value, and what the schema says there (schema.rs). */
module Places {
  import opened Wrappers
  import opened OrderedMaps
  import opened Values
  import opened Schemas

  datatype Step = Field(key: string) | Item(index: nat)

  /** A way down into a value. */
  type Place = seq<Step>

  function Below(value: Value, step: Step): Option<Value> {
    match (value, step)
    case (Map(entries), Field(key)) => Get(entries, key)
    case (List(items), Item(index)) => if index < |items| then Some(items[index]) else None
    case _ => None
  }

  /** The value at a place. */
  function At(value: Value, place: Place): Option<Value> {
    if place == [] then Some(value)
    else match Below(value, place[0])
      case None => None
      case Some(inner) => At(inner, place[1..])
  }

  /** The schema of the value at a place. */
  function NodeBelow(node: SchemaNode, step: Step): Option<SchemaNode> {
    match step
    case Field(key) => Property(node, key)
    case Item(_) => node.items
  }

  function NodeAt(node: SchemaNode, place: Place): Option<SchemaNode> {
    if place == [] then Some(node)
    else match NodeBelow(node, place[0])
      case None => None
      case Some(inner) => NodeAt(inner, place[1..])
  }

  /** A place as messages name it: field names after dots, item numbers in brackets. */
  function Named(prefix: string, place: Place): string
    decreases place
  {
    if place == [] then prefix
    else match place[0]
      case Field(key) => Named(JoinPath(prefix, key), place[1..])
      case Item(index) => Named(ItemPath(prefix, index), place[1..])
  }

  lemma NodeBelowIsValid(node: SchemaNode, step: Step)
    requires ValidSchemaNode(node) && NodeBelow(node, step).Some?
    ensures ValidSchemaNode(NodeBelow(node, step).value)
  {
    if step.Field? {
      PropertyIsValid(node, step.key);
    }
  }

  lemma {:induction false} NodeAtIsValid(node: SchemaNode, place: Place)
    requires ValidSchemaNode(node) && NodeAt(node, place).Some?
    ensures ValidSchemaNode(NodeAt(node, place).value)
  {
    if place != [] {
      NodeBelowIsValid(node, place[0]);
      NodeAtIsValid(NodeBelow(node, place[0]).value, place[1..]);
    }
  }

  lemma {:induction false} NodeAtPrefix(node: SchemaNode, place: Place, k: nat)
    requires k <= |place| && NodeAt(node, place).Some?
    ensures NodeAt(node, place[..k]).Some?
  {
    if k > 0 {
      assert place[..k][0] == place[0] && place[..k][1..] == place[1..][..k - 1];
      NodeAtPrefix(NodeBelow(node, place[0]).value, place[1..], k - 1);
    }
  }

  /** With unique keys a map holds an entry exactly if its value is below the key. */
  lemma BelowEntry(fields: Fields, e: Entry<Value>)
    requires UniqueKeys(fields) && e in fields
    ensures Below(Map(fields), Field(e.key)) == Some(e.value)
  {
    var i :| 0 <= i < |fields| && fields[i] == e;
    forall x | x in fields[..i] ensures x.key != e.key {
      var j :| 0 <= j < i && fields[j] == x;
    }
    GetMiddle(fields[..i], e, fields[i + 1..]);
    assert fields == fields[..i] + [e] + fields[i + 1..];
  }

  lemma UniqueTail(fields: Fields)
    requires UniqueKeys(fields) && fields != []
    ensures UniqueKeys(fields[1..])
    ensures forall e | e in fields[1..] :: e.key != fields[0].key
  {
    forall i, j | 0 <= i < j < |fields[1..]| ensures fields[1..][i].key != fields[1..][j].key {
      assert fields[i + 1].key != fields[j + 1].key;
    }
  }
}
