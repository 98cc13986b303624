/**
 Insertion-ordered maps with string keys: a sequence of entries. Every map the
 program builds has unique keys; lookups take the first match, so they are
 defined without that hypothesis.
 */
module OrderedMaps {
  import opened Wrappers

  datatype Entry<+V> = Entry(key: string, value: V)

  type OrderedMap<+V> = seq<Entry<V>>

  ghost predicate UniqueKeys<V>(m: OrderedMap<V>) {
    forall i, j | 0 <= i < j < |m| :: m[i].key != m[j].key
  }

  function Get<V>(m: OrderedMap<V>, key: string): (r: Option<V>)
    ensures r.Some? ==> Entry(key, r.value) in m
    ensures r.None? <==> forall e | e in m :: e.key != key
  {
    if m == [] then None
    else if m[0].key == key then Some(m[0].value)
    else Get(m[1..], key)
  }

  predicate Has<V>(m: OrderedMap<V>, key: string) {
    Get(m, key).Some?
  }

  /** Replace the value of an existing key in place, or append a new entry. */
  function Insert<V>(m: OrderedMap<V>, key: string, value: V): (r: OrderedMap<V>)
    ensures Get(r, key) == Some(value)
    ensures forall k | k != key :: Get(r, k) == Get(m, k)
  {
    if m == [] then [Entry(key, value)]
    else if m[0].key == key then [Entry(key, value)] + m[1..]
    else [m[0]] + Insert(m[1..], key, value)
  }

  /** Drop the entry of a key, keeping the other entries in order. */
  function Remove<V>(m: OrderedMap<V>, key: string): OrderedMap<V> {
    if m == [] then []
    else if m[0].key == key then m[1..]
    else [m[0]] + Remove(m[1..], key)
  }

  // An entry whose key does not occur before it.

  lemma {:induction false} GetMiddle<V>(a: OrderedMap<V>, e: Entry<V>, b: OrderedMap<V>)
    requires forall x | x in a :: x.key != e.key
    ensures Get(a + [e] + b, e.key) == Some(e.value)
  {
    if a != [] {
      GetMiddle(a[1..], e, b);
      assert (a + [e] + b)[1..] == a[1..] + [e] + b;
    }
  }

  lemma {:induction false} RemoveMiddle<V>(a: OrderedMap<V>, e: Entry<V>, b: OrderedMap<V>)
    requires forall x | x in a :: x.key != e.key
    ensures Remove(a + [e] + b, e.key) == a + b
  {
    if a == [] {
      assert a + [e] + b == [e] + b;
      assert a + b == b;
    } else {
      RemoveMiddle(a[1..], e, b);
      assert (a + [e] + b)[1..] == a[1..] + [e] + b;
      assert a + b == [a[0]] + (a[1..] + b);
    }
  }

  lemma InsertHead<V>(m: OrderedMap<V>, key: string, value: V)
    requires m != []
    ensures Insert(m, key, value) ==
            if m[0].key == key then [Entry(key, value)] + m[1..] else [m[0]] + Insert(m[1..], key, value)
  {
    hide Get;
  }

  lemma {:induction false} InsertMiddle<V>(a: OrderedMap<V>, e: Entry<V>, b: OrderedMap<V>, value: V)
    requires forall x | x in a :: x.key != e.key
    ensures Insert(a + [e] + b, e.key, value) == a + [Entry(e.key, value)] + b
  {
    hide Get, Insert;
    var m := a + [e] + b;
    InsertHead(m, e.key, value);
    if a == [] {
      assert m[0] == e && m[1..] == b;
    } else {
      assert m[0] == a[0] && m[1..] == a[1..] + [e] + b && a[0] in a;
      InsertMiddle(a[1..], e, b, value);
      assert [a[0]] + (a[1..] + [Entry(e.key, value)] + b) == a + [Entry(e.key, value)] + b;
    }
  }

  lemma {:induction false} AppendNew<V>(m: OrderedMap<V>, key: string, value: V)
    requires Get(m, key).None?
    ensures Insert(m, key, value) == m + [Entry(key, value)]
  {
    if m != [] {
      AppendNew(m[1..], key, value);
    }
  }

  lemma {:induction false} InsertSame<V>(m: OrderedMap<V>, key: string)
    requires Has(m, key)
    ensures Insert(m, key, Get(m, key).value) == m
  {
    if m[0].key != key {
      InsertSame(m[1..], key);
    }
  }
}
