/** The static assignment table `ids_to_keys` handed to a `Jumper`, and the
    reverse table `keys_to_ids` its constructor derives from it
    (src/posting/jumper.py:30-32).

    The source table is a Python mapping: its ids are distinct and its items
    come in insertion order. It is modelled as a sequence of bindings with
    distinct ids, so that the order in which the reverse table is filled, and
    therefore which id wins when two ids share a key, is visible. */
module JumpTable {
  import opened Wrappers

  type Id = string
  type Key = string

  /** One `id: key` item of the table. */
  datatype Binding = Binding(id: Id, key: Key)

  predicate DistinctIds(t: seq<Binding>) {
    forall i, j :: 0 <= i < j < |t| ==> t[i].id != t[j].id
  }

  /** `ids_to_keys`: the bindings in insertion order, at most one per id. */
  type IdsToKeys = t: seq<Binding> | DistinctIds(t) witness []

  /** The ids the table assigns a key to (the mapping's keys). */
  function Ids(t: seq<Binding>): set<Id> {
    set i | 0 <= i < |t| :: t[i].id
  }

  /** The keys the table hands out (the mapping's values). */
  function Values(t: seq<Binding>): set<Key> {
    set i | 0 <= i < |t| :: t[i].key
  }

  /** No key is handed out twice. */
  predicate InjectiveKeys(t: seq<Binding>) {
    forall i, j :: 0 <= i < j < |t| ==> t[i].key != t[j].key
  }

  /** `id in ids_to_keys` and `ids_to_keys[id]` in one: the key bound to
      `id`, or None when the table has no binding for it. */
  function Lookup(t: IdsToKeys, id: Id): (r: Option<Key>)
    ensures r.Some? <==> id in Ids(t)
    ensures r.Some? ==> Binding(id, r.value) in t
  {
    if |t| == 0 then None
    else if t[0].id == id then Some(t[0].key)
    else
      var rest: IdsToKeys := t[1..];
      assert forall i :: 0 <= i < |rest| ==> rest[i] == t[i + 1];
      Lookup(rest, id)
  }

  /** Because ids are distinct, a binding in the table is exactly what
      `Lookup` finds for its id. */
  lemma {:induction false} LookupBinding(t: IdsToKeys, id: Id, k: Key)
    ensures Lookup(t, id) == Some(k) <==> Binding(id, k) in t
  {
    if Binding(id, k) in t {
      var i :| 0 <= i < |t| && t[i] == Binding(id, k);
      var j :| 0 <= j < |t| && t[j] == Binding(id, Lookup(t, id).value);
      assert i == j;
    }
  }

  /** `keys_to_ids = {v: k for k, v in ids_to_keys.items()}`: the items are
      visited in insertion order and each one overwrites the entry for its
      key. */
  function KeysToIds(t: IdsToKeys): map<Key, Id> {
    if |t| == 0 then map[]
    else
      var n := |t| - 1;
      var init: IdsToKeys := t[..n];
      KeysToIds(init)[t[n].key := t[n].id]
  }

  /** The reverse table has an entry for exactly the keys the table hands
      out. */
  lemma {:induction false} KeysToIdsDomain(t: IdsToKeys)
    ensures KeysToIds(t).Keys == Values(t)
  {
    if |t| > 0 {
      var n := |t| - 1;
      var init: IdsToKeys := t[..n];
      KeysToIdsDomain(init);
      assert Values(t) == Values(init) + {t[n].key} by {
        assert forall i :: 0 <= i < n ==> init[i] == t[i];
      }
    }
  }

  /** Every reverse entry is an id the table binds to that key. */
  lemma {:induction false} KeysToIdsSound(t: IdsToKeys, k: Key)
    requires k in KeysToIds(t)
    ensures Binding(KeysToIds(t)[k], k) in t
  {
    var n := |t| - 1;
    var init: IdsToKeys := t[..n];
    if k != t[n].key {
      KeysToIdsSound(init, k);
      var i :| 0 <= i < n && init[i] == Binding(KeysToIds(init)[k], k);
      assert t[i] == init[i];
    }
  }

  /** Last write wins: the reverse entry for a key is the id of the last
      binding, in table order, that hands out that key. */
  lemma {:induction false} KeysToIdsLastWins(t: IdsToKeys, j: nat)
    requires j < |t|
    requires forall l :: j < l < |t| ==> t[l].key != t[j].key
    ensures t[j].key in KeysToIds(t)
    ensures KeysToIds(t)[t[j].key] == t[j].id
  {
    var n := |t| - 1;
    var init: IdsToKeys := t[..n];
    assert KeysToIds(t) == KeysToIds(init)[t[n].key := t[n].id];
    if j < n {
      assert init[j] == t[j];
      forall l | j < l < n
        ensures init[l].key != init[j].key
      {
        assert init[l] == t[l];
      }
      KeysToIdsLastWins(init, j);
    }
  }

  /** Round trip through the reverse table: when no key is handed out twice,
      looking an id's key up in `keys_to_ids` gives the id back. */
  lemma KeysToIdsRoundTrip(t: IdsToKeys, id: Id)
    requires InjectiveKeys(t)
    requires id in Ids(t)
    ensures Lookup(t, id).Some?
    ensures Lookup(t, id).value in KeysToIds(t)
    ensures KeysToIds(t)[Lookup(t, id).value] == id
  {
    var k := Lookup(t, id).value;
    var j :| 0 <= j < |t| && t[j] == Binding(id, k);
    KeysToIdsLastWins(t, j);
  }

  /** The other direction, which holds even when keys are shared: every id
      the reverse table yields is bound, in `ids_to_keys`, to the key it was
      found under. */
  lemma {:induction false} KeysToIdsThenLookup(t: IdsToKeys, k: Key)
    requires k in KeysToIds(t)
    ensures Lookup(t, KeysToIds(t)[k]) == Some(k)
  {
    KeysToIdsSound(t, k);
    LookupBinding(t, KeysToIds(t)[k], k);
  }

  /** The reverse table as seen from one binding `id: k`: it has an entry
      for `k`, that entry is an id bound to `k`, and it is `id` itself when
      no key is handed out twice. */
  lemma {:induction false} ReverseOfBinding(t: IdsToKeys, id: Id, k: Key)
    requires Binding(id, k) in t
    ensures k in KeysToIds(t)
    ensures Lookup(t, KeysToIds(t)[k]) == Some(k)
    ensures InjectiveKeys(t) ==> KeysToIds(t)[k] == id
  {
    var j :| 0 <= j < |t| && t[j] == Binding(id, k);
    assert t[j].key in Values(t);
    KeysToIdsDomain(t);
    KeysToIdsThenLookup(t, k);
    if InjectiveKeys(t) {
      KeysToIdsLastWins(t, j);
    }
  }
}
