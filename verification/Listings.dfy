/** Lists ordered by where their elements come from, with nothing missing and nothing twice. */
module Listings {
  /** Where something stands: the numbers of the parts it is in, from the outside inwards. */
  type Spot = seq<nat>

  ghost predicate Earlier(a: Spot, b: Spot)
    decreases |a|
  {
    if a == [] then b != []
    else b != [] && (a[0] < b[0] || (a[0] == b[0] && Earlier(a[1..], b[1..])))
  }

  ghost predicate IsFound<T(!new)>(spot: Spot, x: T, at: seq<Spot>, found: seq<T>) {
    exists k | 0 <= k < |at| && k < |found| :: at[k] == spot && found[k] == x
  }

  type Teller<!T> = (Spot, T) -> bool

  /** What `stands` somewhere, in the order of the spots. */
  ghost predicate Lists<T(!new)>(stands: Teller<T>, found: seq<T>, at: seq<Spot>) {
    && |found| == |at|
    && (forall k | 0 <= k < |at| :: stands(at[k], found[k]))
    && (forall k, l | 0 <= k < l < |at| :: Earlier(at[k], at[l]))
    && (forall spot, x | stands(spot, x) :: IsFound(spot, x, at, found))
  }

  /** The first `n` parts, each in its own place. */
  function Parts<T(!new)>(parts: nat -> Teller<T>, n: nat): (r: Teller<T>)
    ensures forall spot, x :: r(spot, x) <==> spot != [] && spot[0] < n && parts(spot[0])(spot[1..], x)
  {
    (spot: Spot, x: T) => spot != [] && spot[0] < n && parts(spot[0])(spot[1..], x)
  }

  function Inside(n: nat, at: seq<Spot>): (r: seq<Spot>)
    ensures |r| == |at|
    ensures forall k | 0 <= k < |r| :: r[k] == [n] + at[k]
  {
    seq(|at|, k requires 0 <= k < |at| => [n] + at[k])
  }

  lemma NoParts<T(!new)>(parts: nat -> Teller<T>)
    ensures Lists(Parts(parts, 0), [], [])
  {
  }

  /** One more part after the others. */
  lemma OneMorePart<T(!new)>(parts: nat -> Teller<T>, n: nat, found: seq<T>, at: seq<Spot>,
                             more: seq<T>, within: seq<Spot>)
    requires Lists(Parts(parts, n), found, at)
    requires Lists(parts(n), more, within)
    ensures Lists(Parts(parts, n + 1), found + more, at + Inside(n, within))
  {
    hide Earlier, Inside, Parts;
    var all, spots := found + more, at + Inside(n, within);
    forall k | 0 <= k < |spots| ensures Parts(parts, n + 1)(spots[k], all[k]) {
      if k < |at| {
        assert Parts(parts, n)(at[k], found[k]);
      } else {
        assert parts(n)(within[k - |at|], more[k - |at|]);
        assert spots[k][1..] == within[k - |at|];
      }
    }
    forall k, l | 0 <= k < l < |spots| ensures Earlier(spots[k], spots[l]) {
      if k < |at| {
        assert Parts(parts, n)(at[k], found[k]);
        if l >= |at| {
          SmallerHead(spots[k], spots[l]);
        }
      } else {
        SameHead(n, within[k - |at|], within[l - |at|]);
      }
    }
    forall spot, x | Parts(parts, n + 1)(spot, x) ensures IsFound(spot, x, spots, all) {
      if spot[0] < n {
        assert Parts(parts, n)(spot, x);
        var k :| 0 <= k < |at| && at[k] == spot && found[k] == x;
        assert spots[k] == spot && all[k] == x;
      } else {
        assert parts(n)(spot[1..], x);
        var k :| 0 <= k < |within| && within[k] == spot[1..] && more[k] == x;
        assert [n] + spot[1..] == spot;
        assert spots[|at| + k] == [n] + within[k] && all[|at| + k] == x;
      }
    }
  }

  lemma SmallerHead(a: Spot, b: Spot)
    requires a != [] && b != [] && a[0] < b[0]
    ensures Earlier(a, b)
  {
  }

  lemma SameHead(n: nat, a: Spot, b: Spot)
    requires Earlier(a, b)
    ensures Earlier([n] + a, [n] + b)
  {
    assert ([n] + a)[1..] == a && ([n] + b)[1..] == b;
  }

  /** At most one thing, on the spot itself. */
  lemma Single<T(!new)>(stands: Teller<T>, found: seq<T>)
    requires |found| <= 1
    requires forall spot, x :: stands(spot, x) <==> spot == [] && found == [x]
    ensures Lists(stands, found, if found == [] then [] else [[]])
  {
    if found != [] {
      assert stands([], found[0]);
    }
  }

  /** The same things on the same spots, told otherwise. */
  lemma Retold<T(!new)>(stands: Teller<T>, other: Teller<T>, found: seq<T>, at: seq<Spot>)
    requires Lists(stands, found, at)
    requires forall spot, x :: stands(spot, x) <==> other(spot, x)
    ensures Lists(other, found, at)
  {
  }

  // ---------------------------------------------------------------- two rows of parts

  function Raised(n: nat, spot: Spot): Spot {
    if spot == [] then [] else [spot[0] + n] + spot[1..]
  }

  function AllRaised(n: nat, at: seq<Spot>): (r: seq<Spot>)
    ensures |r| == |at|
    ensures forall k | 0 <= k < |r| :: r[k] == Raised(n, at[k])
  {
    seq(|at|, k requires 0 <= k < |at| => Raised(n, at[k]))
  }

  lemma RaisedOrder(n: nat, a: Spot, b: Spot)
    requires a != [] && b != [] && Earlier(a, b)
    ensures Earlier(Raised(n, a), Raised(n, b))
  {
    assert Raised(n, a)[1..] == a[1..] && Raised(n, b)[1..] == b[1..];
  }

  /** One row of parts after another: the numbers of the second are moved up. */
  ghost predicate InRows<T(!new)>(all: Teller<T>, first: Teller<T>, n: nat, second: Teller<T>) {
    && (forall spot, x | first(spot, x) :: spot != [] && spot[0] < n && all(spot, x))
    && (forall spot, x | second(spot, x) :: spot != [] && all(Raised(n, spot), x))
    && (forall spot, x | all(spot, x) ::
          && spot != []
          && if spot[0] < n then first(spot, x) else second([spot[0] - n] + spot[1..], x))
  }

  lemma Joined<T(!new)>(all: Teller<T>, first: Teller<T>, n: nat, second: Teller<T>,
                        found: seq<T>, at: seq<Spot>, more: seq<T>, next: seq<Spot>)
    requires Lists(first, found, at) && Lists(second, more, next) && InRows(all, first, n, second)
    ensures Lists(all, found + more, at + AllRaised(n, next))
  {
    hide Earlier, Raised, AllRaised;
    var whole, spots := found + more, at + AllRaised(n, next);
    forall k | 0 <= k < |spots| ensures all(spots[k], whole[k]) {
      if k < |at| {
        assert first(at[k], found[k]);
      } else {
        assert second(next[k - |at|], more[k - |at|]);
      }
    }
    forall k, l | 0 <= k < l < |spots| ensures Earlier(spots[k], spots[l]) {
      if k < |at| {
        assert first(at[k], found[k]);
        if l >= |at| {
          assert second(next[l - |at|], more[l - |at|]);
          RaisedIsLater(at[k], n, next[l - |at|]);
        }
      } else {
        assert second(next[k - |at|], more[k - |at|]) && second(next[l - |at|], more[l - |at|]);
        RaisedOrder(n, next[k - |at|], next[l - |at|]);
      }
    }
    forall spot, x | all(spot, x) ensures IsFound(spot, x, spots, whole) {
      if spot[0] < n {
        assert first(spot, x);
        var k :| 0 <= k < |at| && at[k] == spot && found[k] == x;
        assert spots[k] == spot && whole[k] == x;
      } else {
        var low := [spot[0] - n] + spot[1..];
        assert second(low, x);
        var k :| 0 <= k < |next| && next[k] == low && more[k] == x;
        LoweredRaised(n, spot);
        assert spots[|at| + k] == Raised(n, low) && whole[|at| + k] == x;
      }
    }
  }

  lemma RaisedIsLater(a: Spot, n: nat, b: Spot)
    requires a != [] && a[0] < n && b != []
    ensures Earlier(a, Raised(n, b))
  {
  }

  lemma LoweredRaised(n: nat, spot: Spot)
    requires spot != [] && n <= spot[0]
    ensures Raised(n, [spot[0] - n] + spot[1..]) == spot
  {
  }
}
