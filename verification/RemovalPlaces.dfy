/** Which places of a value the removal of read-only fields takes out, and what stays (schema.rs). */
module RemovalPlaces {
  import opened Wrappers
  import opened OrderedMaps
  import opened Values
  import opened Schemas
  import opened Stripper
  import opened Places

  // ---------------------------------------------------------------- places that are taken out

  /**
   Removal gets to a place through settable fields only, and not through an array directly
   inside an array; `item` says whether the place may start with an item.
   */
  ghost predicate Entered(node: SchemaNode, place: Place, item: bool) {
    && (place == [] || place[0].Field? || item)
    && forall k | 0 < k < |place| ::
         && NodeAt(node, place[..k]).Some?
         && (place[k - 1].Field? ==> NodeAt(node, place[..k]).value.writable)
         && (place[k].Item? ==> place[k - 1].Field?)
  }

  /** A read-only field that is present and that no removed one contains. */
  ghost predicate Taken(node: SchemaNode, value: Value, place: Place, item: bool) {
    && place != [] && place[|place| - 1].Field?
    && At(value, place).Some?
    && NodeAt(node, place).Some? && !NodeAt(node, place).value.writable
    && Entered(node, place, item)
  }

  /** Neither the place nor anything around it is taken out. */
  ghost predicate Kept(node: SchemaNode, value: Value, place: Place, item: bool) {
    forall k | 0 < k <= |place| :: !Taken(node, value, place[..k], item)
  }

  lemma NodeAtTail(node: SchemaNode, place: Place, k: nat)
    requires 0 < k <= |place| && NodeBelow(node, place[0]).Some?
    ensures NodeAt(node, place[..k]) == NodeAt(NodeBelow(node, place[0]).value, place[1..][..k - 1])
  {
    assert place[..k][0] == place[0] && place[..k][1..] == place[1..][..k - 1];
  }

  lemma EnteredStep(node: SchemaNode, place: Place, item: bool)
    requires place != [] && NodeBelow(node, place[0]).Some?
    ensures Entered(node, place, item) <==>
              && (place[0].Field? || item)
              && (|place| > 1 && place[0].Field? ==> NodeBelow(node, place[0]).value.writable)
              && Entered(NodeBelow(node, place[0]).value, place[1..], place[0].Field?)
  {
    hide NodeAt, NodeBelow;
    var inner, rest := NodeBelow(node, place[0]).value, place[1..];
    forall k | 0 < k <= |place| ensures NodeAt(node, place[..k]) == NodeAt(inner, rest[..k - 1]) {
      NodeAtTail(node, place, k);
    }
    assert rest[..0] == [] && NodeAt(inner, []) == Some(inner) by { NodeAtStart(inner); }
    if Entered(node, place, item) {
      forall k | 0 < k < |rest|
        ensures NodeAt(inner, rest[..k]).Some?
        ensures rest[k - 1].Field? ==> NodeAt(inner, rest[..k]).value.writable
        ensures rest[k].Item? ==> rest[k - 1].Field?
      {
        assert place[k] == rest[k - 1] && place[k + 1] == rest[k];
        assert NodeAt(node, place[..k + 1]) == NodeAt(inner, rest[..k]);
      }
      if |place| > 1 {
        assert NodeAt(node, place[..1]) == Some(inner);
        assert place[1] == rest[0];
      }
    }
    if && (place[0].Field? || item)
       && (|place| > 1 && place[0].Field? ==> inner.writable)
       && Entered(inner, rest, place[0].Field?)
    {
      forall k | 0 < k < |place|
        ensures NodeAt(node, place[..k]).Some?
        ensures place[k - 1].Field? ==> NodeAt(node, place[..k]).value.writable
        ensures place[k].Item? ==> place[k - 1].Field?
      {
        assert NodeAt(node, place[..k]) == NodeAt(inner, rest[..k - 1]);
        assert place[k] == rest[k - 1];
        if k > 1 {
          assert place[k - 1] == rest[k - 2];
        }
      }
    }
  }

  lemma NodeAtStart(node: SchemaNode)
    ensures NodeAt(node, []) == Some(node)
  {
  }

  /** Taken one step further down. */
  lemma TakenStep(node: SchemaNode, value: Value, place: Place, item: bool)
    requires place != [] && Below(value, place[0]).Some? && NodeBelow(node, place[0]).Some?
    ensures var inner := NodeBelow(node, place[0]).value;
            Taken(node, value, place, item) <==>
              && (place[0].Field? || item)
              && (if |place| == 1 then place[0].Field? && !inner.writable
                  else (place[0].Field? ==> inner.writable)
                       && Taken(inner, Below(value, place[0]).value, place[1..], place[0].Field?))
  {
    hide Entered, NodeBelow;
    EnteredStep(node, place, item);
    if |place| == 1 {
      assert place[1..] == [];
      assert NodeAt(NodeBelow(node, place[0]).value, []).Some?;
      assert At(Below(value, place[0]).value, []).Some?;
      assert NodeAt(node, place) == NodeBelow(node, place[0]) && At(value, place).Some?;
      assert place[|place| - 1] == place[0];
      StartEntered(NodeBelow(node, place[0]).value, place[0].Field?);
    } else {
      assert place[1..][|place[1..]| - 1] == place[|place| - 1];
    }
  }

  lemma StartEntered(node: SchemaNode, item: bool)
    ensures Entered(node, [], item)
  {
  }

  lemma KeptStep(node: SchemaNode, value: Value, place: Place, item: bool)
    requires place != [] && Below(value, place[0]).Some? && NodeBelow(node, place[0]).Some?
    ensures var inner := NodeBelow(node, place[0]).value;
            Kept(node, value, place, item) <==>
              || (!place[0].Field? && !item)
              || (&& (place[0].Field? ==> inner.writable)
                  && Kept(inner, Below(value, place[0]).value, place[1..], place[0].Field?))
  {
    hide Taken, NodeBelow, Below;
    var inner, below, rest := NodeBelow(node, place[0]).value, Below(value, place[0]).value, place[1..];
    forall k | 0 < k <= |place|
      ensures Taken(node, value, place[..k], item) <==>
                && (place[0].Field? || item)
                && (if k == 1 then place[0].Field? && !inner.writable
                    else (place[0].Field? ==> inner.writable) && Taken(inner, below, rest[..k - 1], place[0].Field?))
    {
      assert place[..k][0] == place[0] && place[..k][1..] == rest[..k - 1];
      TakenStep(node, value, place[..k], item);
    }
    if Kept(node, value, place, item) && (place[0].Field? || item) {
      assert !Taken(node, value, place[..1], item);
      forall k | 0 < k <= |rest| ensures !Taken(inner, below, rest[..k], place[0].Field?) {
        assert !Taken(node, value, place[..k + 1], item);
      }
    }
  }

  /** Without a schema nothing is taken. */
  lemma UnknownIsKept(node: SchemaNode, value: Value, place: Place, item: bool)
    requires place != [] && NodeBelow(node, place[0]).None?
    ensures Kept(node, value, place, item)
  {
    forall k | 0 < k <= |place| ensures !Taken(node, value, place[..k], item) {
      assert place[..k][0] == place[0];
    }
  }

  // ---------------------------------------------------------------- what stays

  /** What removal leaves of a value: an array only counts where it may be entered. */
  function Cut(node: SchemaNode, value: Value, item: bool): Value {
    if item then StripValue(node, value) else StripItem(node, value)
  }

  lemma {:induction false} GetStripped(node: SchemaNode, fields: Fields, key: string)
    requires UniqueKeys(fields)
    ensures Get(StripFields(node, fields), key) ==
            match Get(fields, key)
            case None => None
            case Some(v) =>
              match Property(node, key)
              case None => Some(v)
              case Some(property) => if property.writable then Some(StripValue(property, v)) else None
  {
    hide StripValue;
    if fields != [] {
      Places.UniqueTail(fields);
      GetStripped(node, fields[1..], key);
      var head, tail := StripEntry(node, fields[0]), StripFields(node, fields[1..]);
      if fields[0].key == key {
        StrippedKeys(node, fields[1..], key);
        if head != [] {
          assert (head + tail)[0] == head[0];
        } else {
          assert head + tail == tail;
        }
      } else if head != [] {
        assert (head + tail)[0] == head[0] && (head + tail)[1..] == tail;
      } else {
        assert head + tail == tail;
      }
    }
  }

  lemma {:induction false} StrippedItems(node: SchemaNode, items: seq<Value>)
    ensures |StripItems(node, items)| == |items|
    ensures forall i | 0 <= i < |items| :: StripItems(node, items)[i] == StripItem(node, items[i])
  {
    hide StripItem;
    if items != [] {
      StrippedItems(node, items[1..]);
    }
  }

  predicate Container(value: Value) {
    value.Map? || value.List?
  }

  /** The same kind of value: equal unless both are maps, or arrays of one length. */
  predicate SameKind(a: Value, b: Value) {
    && (a.Map? <==> b.Map?)
    && (a.List? <==> b.List?)
    && (a.List? ==> |a.items| == |b.items|)
    && (!Container(a) ==> a == b)
  }

  lemma CutKeepsKind(node: SchemaNode, value: Value, item: bool)
    ensures SameKind(value, Cut(node, value, item))
  {
    hide StripItem;
    if value.List? && item && node.items.Some? {
      StrippedItems(node.items.value, value.items);
    }
    if !item {
      ItemKind(node, value);
    }
  }

  lemma ItemKind(node: SchemaNode, value: Value)
    ensures SameKind(value, StripItem(node, value))
  {
  }

  /** One step into what is left. */
  lemma CutBelow(node: SchemaNode, value: Value, step: Step, item: bool)
    requires WellFormed(value)
    ensures Below(value, step).None? ==> Below(Cut(node, value, item), step).None?
    ensures Below(value, step).Some? ==>
              var inner := Below(value, step).value;
              Below(Cut(node, value, item), step) ==
                match NodeBelow(node, step)
                case None => Some(inner)
                case Some(below) =>
                  if step.Item? && !item then Some(inner)
                  else if step.Field? && !below.writable then None
                  else Some(Cut(below, inner, step.Field?))
  {
    hide StripValue, StripItem;
    match value {
      case Map(entries) =>
        CutMap(node, entries, item);
        if step.Field? {
          GetStripped(node, entries, step.key);
        }
      case List(items) =>
        CutList(node, items, item);
        if node.items.Some? {
          StrippedItems(node.items.value, items);
        }
      case _ => CutScalar(node, value, item);
    }
  }

  lemma CutMap(node: SchemaNode, entries: Fields, item: bool)
    ensures Cut(node, Map(entries), item) == Map(StripFields(node, entries))
  {
  }

  lemma CutList(node: SchemaNode, items: seq<Value>, item: bool)
    ensures Cut(node, List(items), item)
         == if item && node.items.Some? then List(StripItems(node.items.value, items)) else List(items)
  {
  }

  lemma CutScalar(node: SchemaNode, value: Value, item: bool)
    requires !Container(value)
    ensures Cut(node, value, item) == value
  {
  }

  lemma BelowIsWellFormed(value: Value, step: Step)
    requires WellFormed(value) && Below(value, step).Some?
    ensures WellFormed(Below(value, step).value)
  {
  }

  /** A place is left exactly if nothing at it or around it was taken, with a value of the same kind. */
  lemma {:induction false} PlacesRemain(node: SchemaNode, value: Value, place: Place, item: bool)
    requires WellFormed(value)
    ensures At(Cut(node, value, item), place).Some?
       <==> At(value, place).Some? && Kept(node, value, place, item)
    ensures At(Cut(node, value, item), place).Some?
        ==> SameKind(At(value, place).value, At(Cut(node, value, item), place).value)
    decreases place
  {
    hide Cut, Kept, Below, NodeBelow, SameKind, WellFormed;
    if place == [] {
      NothingAround(node, value, item);
      CutKeepsKind(node, value, item);
    } else {
      var step, rest := place[0], place[1..];
      CutBelow(node, value, step, item);
      if Below(value, step).Some? {
        var inner := Below(value, step).value;
        BelowIsWellFormed(value, step);
        if NodeBelow(node, step).None? {
          UnknownIsKept(node, value, place, item);
          ItselfIsAlike(inner, rest);
        } else {
          KeptStep(node, value, place, item);
          PlacesRemain(NodeBelow(node, step).value, inner, rest, step.Field?);
          ItselfIsAlike(inner, rest);
        }
      }
    }
  }

  lemma NothingAround(node: SchemaNode, value: Value, item: bool)
    ensures Kept(node, value, [], item)
  {
  }

  lemma ItselfIsAlike(value: Value, place: Place)
    ensures At(value, place).Some? ==> SameKind(At(value, place).value, At(value, place).value)
  {
    hide At;
  }

  // ---------------------------------------------------------------- what is reported

  function Report(node: SchemaNode, value: Value, prefix: string, item: bool): seq<string> {
    if item then RemovedFromValue(node, value, prefix) else RemovedFromItem(node, value, prefix)
  }

  lemma {:induction false} ReportedEntries(node: SchemaNode, fields: Fields, prefix: string, text: string)
    ensures text in RemovedFields(node, fields, prefix)
       <==> exists e | e in fields :: text in RemovedEntry(node, e, prefix)
  {
    hide RemovedEntry;
    if fields != [] {
      ReportedEntries(node, fields[1..], prefix, text);
      assert fields == [fields[0]] + fields[1..];
      if text in RemovedFields(node, fields[1..], prefix) {
        var e :| e in fields[1..] && text in RemovedEntry(node, e, prefix);
        assert e in fields;
      } else if text in RemovedFields(node, fields, prefix) {
        assert text in RemovedEntry(node, fields[0], prefix);
      }
      if e :| e in fields && text in RemovedEntry(node, e, prefix) {
        assert e == fields[0] || e in fields[1..];
      }
    }
  }

  lemma {:induction false} ReportedItems(node: SchemaNode, items: seq<Value>, prefix: string, index: nat, text: string)
    ensures text in RemovedFromItems(node, items, prefix, index)
       <==> exists i | 0 <= i < |items| :: text in RemovedFromItem(node, items[i], ItemPath(prefix, index + i))
  {
    hide RemovedFromItem, ItemPath;
    if items != [] {
      ReportedItems(node, items[1..], prefix, index + 1, text);
      if i :| 0 <= i < |items[1..]| && text in RemovedFromItem(node, items[1..][i], ItemPath(prefix, index + 1 + i)) {
        assert items[i + 1] == items[1..][i];
      }
      if i :| 0 <= i < |items| && text in RemovedFromItem(node, items[i], ItemPath(prefix, index + i)) {
        if i > 0 {
          assert items[1..][i - 1] == items[i];
        }
      }
    }
  }

  lemma NamedStep(prefix: string, step: Step, rest: Place)
    ensures Named(prefix, [step] + rest)
         == Named(if step.Field? then JoinPath(prefix, step.key) else ItemPath(prefix, step.index), rest)
  {
    hide JoinPath, ItemPath;
    assert ([step] + rest)[0] == step && ([step] + rest)[1..] == rest;
  }

  lemma TakenCons(node: SchemaNode, value: Value, step: Step, rest: Place, item: bool)
    requires Below(value, step).Some? && NodeBelow(node, step).Some? && (step.Field? || item)
    requires if rest == [] then step.Field? && !NodeBelow(node, step).value.writable
             else (step.Field? ==> NodeBelow(node, step).value.writable)
                  && Taken(NodeBelow(node, step).value, Below(value, step).value, rest, step.Field?)
    ensures Taken(node, value, [step] + rest, item)
  {
    hide Taken, Below, NodeBelow;
    var place := [step] + rest;
    assert place[0] == step && place[1..] == rest;
    TakenStep(node, value, place, item);
  }

  /** Every reported text names a place that is taken. */
  lemma {:induction false} ReportedIsTaken(node: SchemaNode, value: Value, prefix: string, item: bool, text: string)
    returns (place: Place)
    requires WellFormed(value) && text in Report(node, value, prefix, item)
    ensures Taken(node, value, place, item) && Named(prefix, place) == text
    decreases value
  {
    hide Taken, Named, JoinPath, ItemPath, RemovedFromItems, RemovedFields;
    match value {
      case Map(entries) =>
        assert text in RemovedFields(node, entries, prefix);
        ReportedEntries(node, entries, prefix, text);
        var e :| e in entries && text in RemovedEntry(node, e, prefix);
        BelowEntry(entries, e);
        var property := Property(node, e.key).value;
        if property.writable {
          var rest := ReportedIsTaken(property, e.value, JoinPath(prefix, e.key), true, text);
          place := [Field(e.key)] + rest;
          NotEmpty(property, e.value, rest, true);
          TakenCons(node, value, Field(e.key), rest, item);
          NamedStep(prefix, Field(e.key), rest);
        } else {
          place := [Field(e.key)] + [];
          TakenCons(node, value, Field(e.key), [], item);
          NamedStep(prefix, Field(e.key), []);
          NamedHere(JoinPath(prefix, e.key));
        }
      case List(items) =>
        ReportedItems(node.items.value, items, prefix, 0, text);
        var i :| 0 <= i < |items| && text in RemovedFromItem(node.items.value, items[i], ItemPath(prefix, 0 + i));
        var rest := ReportedIsTaken(node.items.value, items[i], ItemPath(prefix, i), false, text);
        place := [Item(i)] + rest;
        NotEmpty(node.items.value, items[i], rest, false);
        TakenCons(node, value, Item(i), rest, item);
        NamedStep(prefix, Item(i), rest);
      case _ =>
    }
  }

  lemma NamedHere(prefix: string)
    ensures Named(prefix, []) == prefix
  {
  }

  lemma NotEmpty(node: SchemaNode, value: Value, place: Place, item: bool)
    requires Taken(node, value, place, item)
    ensures place != []
  {
  }

  lemma {:induction false} TakenIsReported(node: SchemaNode, value: Value, prefix: string, item: bool, place: Place)
    requires WellFormed(value) && Taken(node, value, place, item)
    ensures Named(prefix, place) in Report(node, value, prefix, item)
    decreases place
  {
    hide Taken, Named, JoinPath, ItemPath, RemovedFromItems, RemovedFields, WellFormed;
    TakenGoesDown(node, value, place, item);
    var step, rest := place[0], place[1..];
    assert place == [step] + rest;
    TakenStep(node, value, place, item);
    NamedStep(prefix, step, rest);
    BelowIsWellFormed(value, step);
    var inner, below := NodeBelow(node, step).value, Below(value, step).value;
    match step {
      case Field(key) =>
        var e := Entry(key, below);
        assert e in value.entries;
        if |place| == 1 {
          assert rest == [];
          NamedHere(JoinPath(prefix, key));
        } else {
          TakenIsReported(inner, below, JoinPath(prefix, key), true, rest);
        }
        assert Named(prefix, place) in RemovedEntry(node, e, prefix);
        ReportedEntries(node, value.entries, prefix, Named(prefix, place));
      case Item(index) =>
        TakenIsReported(inner, below, ItemPath(prefix, index), false, rest);
        ReportedItems(inner, value.items, prefix, 0, Named(prefix, place));
        assert Named(prefix, place) in RemovedFromItem(inner, value.items[index], ItemPath(prefix, 0 + index));
    }
  }

  lemma TakenGoesDown(node: SchemaNode, value: Value, place: Place, item: bool)
    requires Taken(node, value, place, item)
    ensures place != [] && Below(value, place[0]).Some? && NodeBelow(node, place[0]).Some?
  {
    hide Entered;
  }
}
