/** Ordered maps filled by writing one entry after another: the latest value of a key, in the place of the first. */
module Latest {
  import opened OrderedMaps

  /** Nothing is written to the key after position `i`. */
  ghost predicate IsLatest<V>(writes: seq<Entry<V>>, i: int) {
    0 <= i < |writes| && forall j | i < j < |writes| :: writes[j].key != writes[i].key
  }

  /** Some write to `a` comes before every write to `b`. */
  ghost predicate WrittenFirst<V>(writes: seq<Entry<V>>, a: string, b: string) {
    exists i | 0 <= i < |writes| && writes[i].key == a :: forall j | 0 <= j < |writes| && writes[j].key == b :: i < j
  }

  /** Each key once, with its latest value, in the order in which the keys were first written. */
  ghost predicate KeepsLatest<V>(writes: seq<Entry<V>>, m: OrderedMap<V>) {
    && UniqueKeys(m)
    && (forall e | e in m :: exists i | 0 <= i < |writes| && writes[i] == e :: IsLatest(writes, i))
    && (forall w | w in writes :: Has(m, w.key))
    && (forall a, b | 0 <= a < b < |m| :: WrittenFirst(writes, m[a].key, m[b].key))
  }

  /** Inserting changes one value in its place, or appends one entry. */
  lemma {:induction false} InsertAt<V>(m: OrderedMap<V>, key: string, value: V) returns (at: nat)
    ensures at <= |m|
    ensures forall i | 0 <= i < at :: m[i].key != key
    ensures at < |m| ==> m[at].key == key && Insert(m, key, value) == m[at := Entry(key, value)]
    ensures at == |m| ==> Insert(m, key, value) == m + [Entry(key, value)]
  {
    hide Get, Insert;
    if m != [] {
      InsertHead(m, key, value);
    } else {
      InsertIntoNothing(key, value);
    }
    if m == [] {
      at := 0;
    } else if m[0].key == key {
      at := 0;
      assert m[0 := Entry(key, value)] == [Entry(key, value)] + m[1..];
    } else {
      var tail := m[1..];
      var rest := InsertAt(tail, key, value);
      at := rest + 1;
      assert forall i | 0 < i < at :: m[i] == tail[i - 1];
      assert rest < |tail| ==> m[at := Entry(key, value)] == [m[0]] + tail[rest := Entry(key, value)];
      assert m + [Entry(key, value)] == [m[0]] + (tail + [Entry(key, value)]);
    }
  }

  lemma InsertIntoNothing<V>(key: string, value: V)
    ensures Insert<V>([], key, value) == [Entry(key, value)]
  {
  }

  lemma LatestNext<V>(writes: seq<Entry<V>>, w: Entry<V>, i: nat)
    requires IsLatest(writes, i) && writes[i].key != w.key
    ensures IsLatest(writes + [w], i)
  {
  }

  lemma WrittenFirstNext<V>(writes: seq<Entry<V>>, w: Entry<V>, a: string, b: string)
    requires WrittenFirst(writes, a, b)
    ensures WrittenFirst(writes + [w], a, b)
  {
    var i :| 0 <= i < |writes| && writes[i].key == a && forall j | 0 <= j < |writes| && writes[j].key == b :: i < j;
    assert (writes + [w])[i].key == a;
  }

  lemma WriteKeepsLatest<V>(writes: seq<Entry<V>>, m: OrderedMap<V>, w: Entry<V>)
    requires KeepsLatest(writes, m)
    ensures KeepsLatest(writes + [w], Insert(m, w.key, w.value))
  {
    hide Insert, Get, IsLatest, WrittenFirst;
    var at := InsertAt(m, w.key, w.value);
    var all, r := writes + [w], Insert(m, w.key, w.value);
    NewestIsLatest(writes, w);
    forall e | e in r ensures exists i | 0 <= i < |all| && all[i] == e :: IsLatest(all, i) {
      if e != w {
        EntryIsKept(writes, m, w, e, at, r);
      }
    }
    assert forall k | 0 <= k < |m| :: r[k].key == m[k].key;
    forall x | x in all ensures Has(r, x.key) {
      if x.key != w.key {
        assert x in writes && Has(m, x.key);
      }
    }
    forall a, b | 0 <= a < b < |r| ensures WrittenFirst(all, r[a].key, r[b].key) {
      if b < |m| {
        WrittenFirstNext(writes, w, m[a].key, m[b].key);
      } else {
        assert m[a] in m;
        NewKeyIsLast(writes, m, w, m[a]);
      }
    }
  }

  lemma NewestIsLatest<V>(writes: seq<Entry<V>>, w: Entry<V>)
    ensures IsLatest(writes + [w], |writes|) && (writes + [w])[|writes|] == w
  {
  }

  lemma EntryIsKept<V>(writes: seq<Entry<V>>, m: OrderedMap<V>, w: Entry<V>, e: Entry<V>, at: nat, r: OrderedMap<V>)
    requires KeepsLatest(writes, m) && e in r && e != w
    requires at <= |m| && forall i | 0 <= i < at :: m[i].key != w.key
    requires at < |m| ==> m[at].key == w.key && r == m[at := w]
    requires at == |m| ==> r == m + [w]
    ensures exists i | 0 <= i < |writes + [w]| && (writes + [w])[i] == e :: IsLatest(writes + [w], i)
  {
    var k :| 0 <= k < |r| && r[k] == e;
    assert k != at && m[k] == e && m[k] in m;
    var i :| 0 <= i < |writes| && writes[i] == e && IsLatest(writes, i);
    assert e.key != w.key;
    LatestNext(writes, w, i);
    assert (writes + [w])[i] == e;
  }

  lemma NewKeyIsLast<V>(writes: seq<Entry<V>>, m: OrderedMap<V>, w: Entry<V>, e: Entry<V>)
    requires KeepsLatest(writes, m) && e in m && forall x | x in m :: x.key != w.key
    ensures WrittenFirst(writes + [w], e.key, w.key)
  {
    var i :| 0 <= i < |writes| && writes[i] == e && IsLatest(writes, i);
    var all := writes + [w];
    assert all[i].key == e.key;
    forall j | 0 <= j < |writes| ensures writes[j].key != w.key {
      assert writes[j] in writes;
    }
  }

  lemma NothingWritten<V>()
    ensures KeepsLatest<V>([], [])
  {
  }
}
