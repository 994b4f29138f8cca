/**
 * The reconciliation policy as functions on snapshots of a collection: what
 * the `matches`, `games` and `players` arrays look like after one push
 * notification or mutation response has been folded in. The in-place
 * versions in module Collections are proved to produce exactly these values.
 */
module Reconcile {
  import opened Records

  /** Upsert: merge the payload into the first entity with its id, or append it. */
  function Upsert<V>(s: seq<Record<V>>, p: Record<V>): (r: seq<Record<V>>)
    ensures p.id in Ids(r)
    ensures |r| == if p.id in Ids(s) then |s| else |s| + 1
  {
    var i := IndexOf(Ids(s), p.id);
    if i == -1 then
      assert Ids(s + [p])[|s|] == p.id;
      s + [p]
    else
      assert Ids(s[i := Merge(s[i], p)])[i] == p.id;
      s[i := Merge(s[i], p)]
  }

  /** Remove by id: splice out the first entity with the id; otherwise nothing. */
  function RemoveById<V>(s: seq<Record<V>>, id: Id): (r: seq<Record<V>>)
    ensures |r| == if id in Ids(s) then |s| - 1 else |s|
  {
    var i := IndexOf(Ids(s), id);
    if i > -1 then s[..i] + s[i + 1..] else s
  }

  /** Insert-if-absent: append the payload only when no entity has its id. */
  function InsertIfAbsent<V>(s: seq<Record<V>>, p: Record<V>): (r: seq<Record<V>>)
    ensures p.id in Ids(r)
    ensures |r| == if p.id in Ids(s) then |s| else |s| + 1
  {
    if p.id in Ids(s) then s
    else
      assert Ids(s + [p])[|s|] == p.id;
      s + [p]
  }

  /** A stream of notifications applied in arrival order. */
  function UpsertAll<V>(s: seq<Record<V>>, ps: seq<Record<V>>): (r: seq<Record<V>>)
    ensures |s| <= |r| <= |s| + |ps|
    decreases |ps|
  {
    if ps == [] then s else UpsertAll(Upsert(s, ps[0]), ps[1..])
  }

  lemma IdsAppend<V>(s: seq<Record<V>>, p: Record<V>)
    ensures Ids(s + [p]) == Ids(s) + [p.id]
  {
  }

  lemma IdsSplice<V>(s: seq<Record<V>>, k: nat)
    requires k < |s|
    ensures Ids(s[..k] + s[k + 1..]) == Ids(s)[..k] + Ids(s)[k + 1..]
  {
  }

  /** An id that is not there yet is appended at the tail; nothing before it moves. */
  lemma UpsertAbsent<V>(s: seq<Record<V>>, p: Record<V>)
    requires p.id !in Ids(s)
    ensures Upsert(s, p) == s + [p]
    ensures |Upsert(s, p)| == |s| + 1
  {
  }

  /** An id that is there already (first at position k) is merged in place:
      same length, same position, payload fields set, other fields kept,
      every other entity untouched. */
  lemma UpsertPresent<V>(s: seq<Record<V>>, p: Record<V>, k: nat)
    requires k < |s| && s[k].id == p.id
    requires forall j :: 0 <= j < k ==> s[j].id != p.id
    ensures |Upsert(s, p)| == |s|
    ensures Upsert(s, p)[k].id == s[k].id
    ensures forall f :: f in p.fields ==> f in Upsert(s, p)[k].fields && Upsert(s, p)[k].fields[f] == p.fields[f]
    ensures forall f :: f in s[k].fields && f !in p.fields ==>
              f in Upsert(s, p)[k].fields && Upsert(s, p)[k].fields[f] == s[k].fields[f]
    ensures forall f :: f in Upsert(s, p)[k].fields ==> f in p.fields || f in s[k].fields
    ensures forall j :: 0 <= j < |s| && j != k ==> Upsert(s, p)[j] == s[j]
  {
    assert forall j :: 0 <= j < k ==> Ids(s)[j] != p.id;
    assert Ids(s)[k] == p.id;
  }

  /** Upsert keeps ids unique and leaves exactly one entity with the payload's id. */
  lemma UpsertKeepsUnique<V>(s: seq<Record<V>>, p: Record<V>)
    requires Unique(s)
    ensures Unique(Upsert(s, p))
    ensures p.id in Ids(Upsert(s, p))
    ensures Ids(Upsert(s, p)) == if p.id in Ids(s) then Ids(s) else Ids(s) + [p.id]
  {
    var i := IndexOf(Ids(s), p.id);
    if i == -1 {
      IdsAppend(s, p);
    } else {
      assert Ids(s[i := Merge(s[i], p)]) == Ids(s);
    }
  }

  /** The same payload applied twice gives what applying it once gives. */
  lemma UpsertIdempotent<V>(s: seq<Record<V>>, p: Record<V>)
    ensures Upsert(Upsert(s, p), p) == Upsert(s, p)
  {
    var i := IndexOf(Ids(s), p.id);
    var once := Upsert(s, p);
    if i == -1 {
      IdsAppend(s, p);
      assert IndexOf(Ids(once), p.id) == |s| by {
        assert Ids(once)[..|s|] == Ids(s);
      }
      MergeIdempotent(p, p);
      assert Merge(p, p).fields == p.fields;
    } else {
      assert Ids(once) == Ids(s);
      MergeIdempotent(s[i], p);
    }
  }

  /** Removing a present id deletes exactly that entity and keeps the order of the rest. */
  lemma RemovePresent<V>(s: seq<Record<V>>, id: Id, k: nat)
    requires Unique(s) && k < |s| && s[k].id == id
    ensures RemoveById(s, id) == s[..k] + s[k + 1..]
    ensures |RemoveById(s, id)| == |s| - 1
    ensures id !in Ids(RemoveById(s, id))
  {
    IndexOfDistinct(Ids(s), id, k);
    IdsSplice(s, k);
    var ids, r := Ids(s), Ids(RemoveById(s, id));
    forall j | 0 <= j < |r| ensures r[j] != id {
      if j < k {
        assert r[j] == ids[j];
      } else {
        assert r[j] == ids[j + 1];
      }
    }
  }

  /** Removing an absent id is a no-op. */
  lemma RemoveAbsent<V>(s: seq<Record<V>>, id: Id)
    requires id !in Ids(s)
    ensures RemoveById(s, id) == s
  {
  }

  /** Removal keeps ids unique. */
  lemma RemoveKeepsUnique<V>(s: seq<Record<V>>, id: Id)
    requires Unique(s)
    ensures Unique(RemoveById(s, id))
  {
    var i := IndexOf(Ids(s), id);
    if i > -1 {
      IdsSplice(s, i);
      var ids, r := Ids(s), Ids(RemoveById(s, id));
      forall a, b | 0 <= a < b < |r| ensures r[a] != r[b] {
        var a', b' := if a < i then a else a + 1, if b < i then b else b + 1;
        assert r[a] == ids[a'] && r[b] == ids[b'];
      }
    }
  }

  /** Removing twice is removing once: the second time finds nothing. */
  lemma RemoveIdempotent<V>(s: seq<Record<V>>, id: Id)
    requires Unique(s)
    ensures RemoveById(RemoveById(s, id), id) == RemoveById(s, id)
  {
    var i := IndexOf(Ids(s), id);
    if i > -1 {
      RemovePresent(s, id, i);
    }
  }

  /** Insert-if-absent never creates a duplicate, and afterwards the id is there. */
  lemma InsertIfAbsentKeepsUnique<V>(s: seq<Record<V>>, p: Record<V>)
    requires Unique(s)
    ensures Unique(InsertIfAbsent(s, p))
    ensures p.id in Ids(InsertIfAbsent(s, p))
    ensures p.id in Ids(s) ==> InsertIfAbsent(s, p) == s
  {
    if p.id !in Ids(s) {
      IdsAppend(s, p);
    }
  }

  /** Insert-if-absent is idempotent. */
  lemma InsertIfAbsentIdempotent<V>(s: seq<Record<V>>, p: Record<V>)
    ensures InsertIfAbsent(InsertIfAbsent(s, p), p) == InsertIfAbsent(s, p)
  {
    if p.id !in Ids(s) {
      IdsAppend(s, p);
    }
  }

  /** Notifications for ids that are all new, and pairwise distinct, are appended in arrival order. */
  lemma {:induction false} UpsertAllDistinct<V>(s: seq<Record<V>>, ps: seq<Record<V>>)
    requires Unique(s + ps)
    ensures UpsertAll(s, ps) == s + ps
    decreases |ps|
  {
    if ps != [] {
      var ids := Ids(s + ps);
      forall j | 0 <= j < |s| ensures Ids(s)[j] != ps[0].id {
        assert ids[j] == Ids(s)[j] && ids[|s|] == ps[0].id;
      }
      UpsertAbsent(s, ps[0]);
      assert (s + [ps[0]]) + ps[1..] == s + ps;
      UpsertAllDistinct(s + [ps[0]], ps[1..]);
    }
  }

  /** Starting from an empty collection, N notifications with N distinct ids give N entities. */
  lemma UpsertAllCount<V>(ps: seq<Record<V>>)
    requires Unique(ps)
    ensures |UpsertAll([], ps)| == |ps|
  {
    assert [] + ps == ps;
    UpsertAllDistinct([], ps);
  }

  /** Any stream of notifications keeps ids unique, and the ids present are
      exactly the old ones together with those of the notifications. */
  lemma {:induction false} UpsertAllKeepsUnique<V>(s: seq<Record<V>>, ps: seq<Record<V>>)
    requires Unique(s)
    ensures Unique(UpsertAll(s, ps))
    ensures forall id :: id in Ids(UpsertAll(s, ps)) <==> id in Ids(s) || id in Ids(ps)
    decreases |ps|
  {
    if ps != [] {
      UpsertKeepsUnique(s, ps[0]);
      UpsertAllKeepsUnique(Upsert(s, ps[0]), ps[1..]);
      assert Ids(ps) == [ps[0].id] + Ids(ps[1..]);
    }
  }

  /** The ids of `seen` followed by each id of `ps` not seen before, in the
      order of first arrival. */
  function FirstSeen(seen: seq<Id>, ps: seq<Id>): (r: seq<Id>)
    ensures |seen| <= |r| <= |seen| + |ps|
    ensures r[..|seen|] == seen
    decreases |ps|
  {
    if ps == [] then seen
    else FirstSeen(if ps[0] in seen then seen else seen + [ps[0]], ps[1..])
  }

  /** Any stream of notifications, repeated ids included, leaves one entity
      per id: those already held in place, then one per new id in the order
      the id was first pushed. */
  lemma {:induction false} UpsertAllFirstSeen<V>(s: seq<Record<V>>, ps: seq<Record<V>>)
    requires Unique(s)
    ensures Ids(UpsertAll(s, ps)) == FirstSeen(Ids(s), Ids(ps))
    decreases |ps|
  {
    if ps != [] {
      UpsertKeepsUnique(s, ps[0]);
      UpsertAllFirstSeen(Upsert(s, ps[0]), ps[1..]);
      assert Ids(ps)[0] == ps[0].id && Ids(ps)[1..] == Ids(ps[1..]);
    }
  }
}
