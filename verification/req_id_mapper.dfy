/**
 The requirement-number store: a map from a node's raw ID string to the
 integer requirement number it was given, plus the high-water counter
 `maxId` from which the next number is issued. The `shelve` file that
 `mind2doc.py` keeps the numbers in is an in-memory map here.
 */
module ReqIdMapper {

  datatype Mapper = Mapper(store: map<string, int>, maxId: int)

  /** The counter is at least 1 and no stored number exceeds it. */
  predicate Valid(m: Mapper) {
    && 1 <= m.maxId
    && forall k :: k in m.store ==> m.store[k] <= m.maxId
  }

  /** No two raw IDs share a requirement number. */
  predicate Injective(m: Mapper) {
    forall k, k' :: k in m.store && k' in m.store && k != k' ==> m.store[k] != m.store[k']
  }

  /** `m'` keeps every entry of `m` unchanged (it may hold more). */
  predicate Extends(m: Mapper, m': Mapper) {
    forall k :: k in m.store ==> k in m'.store && m'.store[k] == m.store[k]
  }

  /** The state of a freshly created, empty store. */
  function Empty(): (m: Mapper)
    ensures Valid(m) && Injective(m) && |m.store| == 0
  {
    Mapper(map[], 1)
  }

  /**
   Opening a store: the counter starts at the largest stored number, or at
   1 when the store is empty.
   */
  method Open(store: map<string, int>) returns (m: Mapper)
    ensures m.store == store
    ensures |store| == 0 ==> m.maxId == 1
    ensures |store| > 0 ==> m.maxId in store.Values
    ensures forall k :: k in store ==> store[k] <= m.maxId
    ensures (forall k :: k in store ==> 1 <= store[k]) ==> Valid(m)
  {
    if |store| == 0 {
      return Mapper(store, 1);
    }
    var k0 :| k0 in store;
    var maxId := store[k0];
    var rest := store.Keys - {k0};
    while rest != {}
      invariant rest <= store.Keys
      invariant maxId in store.Values
      invariant forall k :: k in store && k !in rest ==> store[k] <= maxId
      decreases rest
    {
      var k :| k in rest;
      if store[k] > maxId {
        maxId := store[k];
      }
      rest := rest - {k};
    }
    m := Mapper(store, maxId);
  }

  /**
   `getId`: the stored number of `rawId` when there is one; otherwise the
   next number `maxId + 1`, which is recorded and becomes the new counter.
   */
  function GetId(m: Mapper, rawId: string): (r: (int, Mapper))
    ensures rawId in m.store ==> r.0 == m.store[rawId] && r.1 == m
    ensures rawId !in m.store ==>
      && r.0 == m.maxId + 1
      && r.1.maxId == m.maxId + 1
      && r.1.store.Keys == m.store.Keys + {rawId}
      && r.1.store[rawId] == r.0
      && (forall k :: k in m.store ==> r.1.store[k] == m.store[k])
    ensures rawId in r.1.store && r.1.store[rawId] == r.0
    ensures Extends(m, r.1)
  {
    if rawId in m.store then (m.store[rawId], m)
    else
      var id := m.maxId + 1;
      (id, Mapper(m.store[rawId := id], id))
  }

  /** `getId` keeps the counter invariant, and a newly issued number is larger than every stored one. */
  lemma GetIdPreservesValid(m: Mapper, rawId: string)
    ensures Valid(m) ==> Valid(GetId(m, rawId).1)
    ensures Valid(m) && rawId !in m.store ==> forall k :: k in m.store ==> m.store[k] < GetId(m, rawId).0
  {
  }

  /** An injective store stays injective under `getId`. */
  lemma GetIdPreservesInjective(m: Mapper, rawId: string)
    ensures Valid(m) && Injective(m) ==> Injective(GetId(m, rawId).1)
  {
    if Valid(m) && Injective(m) {
      var m' := GetId(m, rawId).1;
      forall k, k' | k in m'.store && k' in m'.store && k != k'
        ensures m'.store[k] != m'.store[k']
      {
        if rawId !in m.store && (k == rawId || k' == rawId) {
          assert m'.store[rawId] == m.maxId + 1;
        }
      }
    }
  }

  lemma ExtendsTransitive(a: Mapper, b: Mapper, c: Mapper)
    requires Extends(a, b) && Extends(b, c)
    ensures Extends(a, c)
  {
  }

  /** A run of `getId` calls, one per raw ID in order. */
  function ResolveAll(m: Mapper, rawIds: seq<string>): (r: (seq<int>, Mapper))
    ensures |r.0| == |rawIds|
    ensures Extends(m, r.1)
    decreases |rawIds|
  {
    if |rawIds| == 0 then ([], m)
    else
      var (id, m1) := GetId(m, rawIds[0]);
      var (ids, m2) := ResolveAll(m1, rawIds[1..]);
      ([id] + ids, m2)
  }

  /** After a run, every raw ID is stored with the number its call returned. */
  lemma {:induction false} ResolveAllRecords(m: Mapper, rawIds: seq<string>)
    ensures var (ids, m') := ResolveAll(m, rawIds);
      forall i :: 0 <= i < |rawIds| ==> rawIds[i] in m'.store && m'.store[rawIds[i]] == ids[i]
    decreases |rawIds|
  {
    if |rawIds| > 0 {
      ResolveAllRecords(GetId(m, rawIds[0]).1, rawIds[1..]);
    }
  }

  /** The raw IDs occurring in a sequence. */
  function Elems(rawIds: seq<string>): set<string> {
    set k | k in rawIds
  }

  /** The raw IDs in `rawIds` that `m` has no number for yet. */
  function NewKeys(m: Mapper, rawIds: seq<string>): set<string> {
    Elems(rawIds) - m.store.Keys
  }

  /** Resolving one more raw ID appends one `getId` call to the run. */
  lemma {:induction false} ResolveAllSnoc(m: Mapper, rawIds: seq<string>, k: string)
    ensures ResolveAll(m, rawIds + [k]) ==
      var (ids, m1) := ResolveAll(m, rawIds);
      var (id, m2) := GetId(m1, k);
      (ids + [id], m2)
    decreases |rawIds|
  {
    if |rawIds| > 0 {
      var (id0, m1) := GetId(m, rawIds[0]);
      var tail := rawIds[1..];
      assert (rawIds + [k])[0] == rawIds[0];
      assert (rawIds + [k])[1..] == tail + [k];
      ResolveAllSnoc(m1, tail, k);
      var (ids, mt) := ResolveAll(m1, tail);
      var (id, m3) := GetId(mt, k);
      assert ResolveAll(m1, tail + [k]) == (ids + [id], m3);
      assert ResolveAll(m, rawIds + [k]) == ([id0] + (ids + [id]), m3);
      assert ResolveAll(m, rawIds) == ([id0] + ids, mt);
      assert [id0] + (ids + [id]) == ([id0] + ids) + [id];
    } else {
      var (id, m2) := GetId(m, k);
      assert rawIds + [k] == [k];
      assert ResolveAll(m, [k]) == ([id] + [], m2);
      assert [id] + [] == [] + [id];
    }
  }

  /** A run over `a + b` is the run over `a` followed by the run over `b` on the store it left. */
  lemma {:induction false} ResolveAllAppend(m: Mapper, a: seq<string>, b: seq<string>)
    ensures ResolveAll(m, a + b) ==
      var (x, m1) := ResolveAll(m, a);
      var (y, m2) := ResolveAll(m1, b);
      (x + y, m2)
    decreases |a|
  {
    if |a| == 0 {
      assert a + b == b;
      assert [] + ResolveAll(m, b).0 == ResolveAll(m, b).0;
    } else {
      var (id, m0) := GetId(m, a[0]);
      assert (a + b)[0] == a[0];
      assert (a + b)[1..] == a[1..] + b;
      ResolveAllAppend(m0, a[1..], b);
      var (x, m1) := ResolveAll(m0, a[1..]);
      var y := ResolveAll(m1, b).0;
      assert [id] + (x + y) == ([id] + x) + y;
    }
  }

  /** The numbers of a prefix of the run do not depend on what follows. */
  lemma {:induction false} ResolveAllPrefix(m: Mapper, rawIds: seq<string>, n: nat)
    requires n <= |rawIds|
    ensures ResolveAll(m, rawIds[..n]).0 == ResolveAll(m, rawIds).0[..n]
    decreases n
  {
    if n > 0 {
      assert rawIds[..n][1..] == rawIds[1..][..n - 1];
      ResolveAllPrefix(GetId(m, rawIds[0]).1, rawIds[1..], n - 1);
    }
  }

  lemma ElemsFirst(rawIds: seq<string>)
    requires |rawIds| > 0
    ensures Elems(rawIds) == {rawIds[0]} + Elems(rawIds[1..])
  {
    assert forall x :: x in rawIds <==> x == rawIds[0] || x in rawIds[1..];
  }

  /** A run of `getId` calls adds exactly the raw IDs it was given. */
  lemma {:induction false} ResolveAllKeys(m: Mapper, rawIds: seq<string>)
    ensures ResolveAll(m, rawIds).1.store.Keys == m.store.Keys + Elems(rawIds)
    decreases |rawIds|
  {
    if |rawIds| == 0 {
      assert Elems(rawIds) == {};
    } else {
      var k := rawIds[0];
      var tail := rawIds[1..];
      var m1 := GetId(m, k).1;
      assert m1.store.Keys == m.store.Keys + {k};
      ResolveAllKeys(m1, tail);
      ElemsFirst(rawIds);
    }
  }

  /** A run of `getId` calls on a valid store leaves it valid. */
  lemma {:induction false} ResolveAllValid(m: Mapper, rawIds: seq<string>)
    ensures Valid(m) ==> Valid(ResolveAll(m, rawIds).1)
    decreases |rawIds|
  {
    if |rawIds| > 0 {
      var m1 := GetId(m, rawIds[0]).1;
      GetIdPreservesValid(m, rawIds[0]);
      ResolveAllValid(m1, rawIds[1..]);
    }
  }

  /**
   Over any run of `getId` calls the counter advances by exactly the number
   of distinct new raw IDs.
   */
  lemma {:induction false} ResolveAllCounter(m: Mapper, rawIds: seq<string>)
    ensures ResolveAll(m, rawIds).1.maxId == m.maxId + |NewKeys(m, rawIds)|
    decreases |rawIds|
  {
    if |rawIds| == 0 {
      assert NewKeys(m, rawIds) == {};
    } else {
      ResolveAllCounter(GetId(m, rawIds[0]).1, rawIds[1..]);
      ResolveAllCons(m, rawIds);
      NewKeysCons(m, rawIds);
    }
  }

  /** The first call of a non-empty run, followed by the rest of the run. */
  lemma ResolveAllCons(m: Mapper, rawIds: seq<string>)
    requires |rawIds| > 0
    ensures ResolveAll(m, rawIds).1 == ResolveAll(GetId(m, rawIds[0]).1, rawIds[1..]).1
  {
  }

  /** The first call of a run accounts for its raw ID in the count of new keys. */
  lemma NewKeysCons(m: Mapper, rawIds: seq<string>)
    requires |rawIds| > 0
    ensures var m1 := GetId(m, rawIds[0]).1;
      m1.maxId + |NewKeys(m1, rawIds[1..])| == m.maxId + |NewKeys(m, rawIds)|
  {
    var k := rawIds[0];
    var tail := rawIds[1..];
    var m1 := GetId(m, k).1;
    ElemsFirst(rawIds);
    if k in m.store {
      assert NewKeys(m, rawIds) == NewKeys(m1, tail);
    } else {
      var rest := NewKeys(m1, tail);
      assert k !in rest;
      assert NewKeys(m, rawIds) == rest + {k};
    }
  }

  /**
   How many positions of `rawIds` hold a raw ID that `m` has no number for
   and that does not occur earlier in `rawIds`.
   */
  function NewCount(m: Mapper, rawIds: seq<string>): nat
    decreases |rawIds|
  {
    if |rawIds| == 0 then 0
    else
      var init := rawIds[..|rawIds| - 1];
      var k := rawIds[|rawIds| - 1];
      NewCount(m, init) + (if k in m.store || k in init then 0 else 1)
  }

  /** `NewCount` counts the distinct raw IDs the store has no number for. */
  lemma {:induction false} NewCountIsNewKeys(m: Mapper, rawIds: seq<string>)
    ensures NewCount(m, rawIds) == |NewKeys(m, rawIds)|
    decreases |rawIds|
  {
    if |rawIds| == 0 {
      assert NewKeys(m, rawIds) == {};
    } else {
      var init := rawIds[..|rawIds| - 1];
      var k := rawIds[|rawIds| - 1];
      assert rawIds == init + [k];
      NewCountIsNewKeys(m, init);
      NewKeysSnoc(m, init, k);
    }
  }

  lemma NewKeysSnoc(m: Mapper, init: seq<string>, k: string)
    ensures k in m.store || k in init ==> NewKeys(m, init + [k]) == NewKeys(m, init)
    ensures k !in m.store && k !in init ==>
      NewKeys(m, init + [k]) == NewKeys(m, init) + {k} && k !in NewKeys(m, init)
  {
    assert Elems(init + [k]) == Elems(init) + {k} by {
      assert forall x :: x in init + [k] <==> x in init || x == k;
    }
  }

  /**
   Numbering: in a run of `getId` calls, the j-th distinct raw ID (counting
   from 0) that the store did not hold receives `maxId + 1 + j`.
   */
  lemma ResolveAllNumbering(m: Mapper, rawIds: seq<string>, i: nat)
    requires i < |rawIds| && rawIds[i] !in m.store && rawIds[i] !in rawIds[..i]
    ensures ResolveAll(m, rawIds).0[i] == m.maxId + 1 + NewCount(m, rawIds[..i])
  {
    var init := rawIds[..i];
    var k := rawIds[i];
    var m1 := ResolveAll(m, init).1;
    ResolveAllAt(m, rawIds, i);
    assert GetId(m1, k).0 == m1.maxId + 1 by {
      ResolveAllKeys(m, init);
      assert k !in Elems(init);
    }
    assert m1.maxId == m.maxId + NewCount(m, init) by {
      ResolveAllCounter(m, init);
      NewCountIsNewKeys(m, init);
    }
  }

  /** The i-th call of a run is `getId` on the store the first i calls left. */
  lemma ResolveAllAt(m: Mapper, rawIds: seq<string>, i: nat)
    requires i < |rawIds|
    ensures ResolveAll(m, rawIds).0[i] == GetId(ResolveAll(m, rawIds[..i]).1, rawIds[i]).0
  {
    var init := rawIds[..i];
    var k := rawIds[i];
    var (ids, m1) := ResolveAll(m, init);
    var id := GetId(m1, k).0;
    ResolveAllPrefix(m, rawIds, i + 1);
    assert rawIds[..i + 1] == init + [k];
    ResolveAllSnoc(m, init, k);
    assert ResolveAll(m, rawIds).0[..i + 1] == ids + [id];
    assert (ids + [id])[i] == id;
  }

  /**
   From a freshly created store, the k-th distinct raw ID ever resolved
   (counting from 1) receives the number k + 1, so the first requirement
   number is 2.
   */
  lemma FreshStoreNumbering(rawIds: seq<string>, i: nat)
    requires i < |rawIds| && rawIds[i] !in rawIds[..i]
    ensures ResolveAll(Empty(), rawIds).0[i] == NewCount(Empty(), rawIds[..i]) + 2
  {
    ResolveAllNumbering(Empty(), rawIds, i);
  }

  /**
   Stability and uniqueness: a run of `getId` calls on a valid, injective
   store keeps it injective, gives every occurrence of one raw ID the same
   number, and gives distinct raw IDs distinct numbers.
   */
  lemma {:induction false} ResolveAllStableUnique(m: Mapper, rawIds: seq<string>)
    requires Valid(m) && Injective(m)
    ensures Injective(ResolveAll(m, rawIds).1)
    ensures forall i, j :: 0 <= i < |rawIds| && 0 <= j < |rawIds| ==>
      (ResolveAll(m, rawIds).0[i] == ResolveAll(m, rawIds).0[j] <==> rawIds[i] == rawIds[j])
    decreases |rawIds|
  {
    if |rawIds| > 0 {
      var (id, m1) := GetId(m, rawIds[0]);
      GetIdPreservesValid(m, rawIds[0]);
      GetIdPreservesInjective(m, rawIds[0]);
      ResolveAllStableUnique(m1, rawIds[1..]);
      ResolveAllRecords(m, rawIds);
    }
  }
}
