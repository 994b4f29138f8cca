/**
 * The client-held arrays as the components mutate them: an array of entity
 * objects that notification and mutation handlers update in place. A
 * reference to an entity that some other component holds keeps seeing the
 * entity after a merge, because the merge writes into the object itself.
 */
module Collections {
  import opened Records
  import Reconcile

  /** One entity object: its id never changes, its other fields are overwritten by merges. */
  class Entity<V> {
    const id: Id
    var fields: map<Field, V>

    constructor (id: Id, fields: map<Field, V>)
      ensures this.id == id && this.fields == fields
    {
      this.id := id;
      this.fields := fields;
    }

    /** The entity's current value. */
    function Snap(): (r: Record<V>)
      reads this
      ensures r.id == id && r.fields == fields
    {
      Record(id, fields)
    }
  }

  /** The ids of a list of entity objects (the id of an object is fixed). */
  function IdsOf<V>(es: seq<Entity<V>>): (ids: seq<Id>)
    ensures |ids| == |es|
    ensures forall i :: 0 <= i < |es| ==> ids[i] == es[i].id
  {
    MapIds(es, (e: Entity<V>) => e.id)
  }

  /** `xs.filter(x => x.id === id)`: the entities with that id, in collection order.
      It is empty exactly when the id is absent, and its head is the entity
      `indexOf` finds, so the two lookups the components use agree. */
  function Filter<V>(es: seq<Entity<V>>, id: Id): (r: seq<Entity<V>>)
    ensures |r| == 0 <==> id !in IdsOf(es)
    ensures |r| > 0 ==> r[0] == es[IndexOf(IdsOf(es), id)]
    ensures forall e :: e in r ==> e in es && e.id == id
    ensures |r| <= |es|
  {
    if es == [] then []
    else
      assert IdsOf(es) == [es[0].id] + IdsOf(es[1..]);
      if es[0].id == id then [es[0]] + Filter(es[1..], id)
      else Filter(es[1..], id)
  }

  /** Among entities with distinct ids, the filter finds at most one. */
  lemma {:induction false} FilterDistinct<V>(es: seq<Entity<V>>, id: Id)
    requires Distinct(IdsOf(es))
    ensures |Filter(es, id)| <= 1
    decreases |es|
  {
    if es != [] {
      assert IdsOf(es) == [es[0].id] + IdsOf(es[1..]);
      assert Distinct(IdsOf(es[1..])) by {
        forall i, j | 0 <= i < j < |es| - 1 ensures IdsOf(es[1..])[i] != IdsOf(es[1..])[j] {
          assert IdsOf(es)[i + 1] != IdsOf(es)[j + 1];
        }
      }
      FilterDistinct(es[1..], id);
      if es[0].id == id {
        forall j | 0 <= j < |es| - 1 ensures IdsOf(es[1..])[j] != id {
          assert IdsOf(es)[0] != IdsOf(es)[j + 1];
        }
      }
    }
  }

  /** The value of a sequence of entity objects. */
  ghost function Snaps<V>(es: seq<Entity<V>>): (r: seq<Record<V>>)
    reads es
    ensures |r| == |es|
    ensures forall i :: 0 <= i < |es| ==> r[i] == es[i].Snap()
    ensures Ids(r) == IdsOf(es)
  {
    seq(|es|, i requires 0 <= i < |es| reads es => es[i].Snap())
  }

  /** An array of entities (`matches`, `match.games` or `players`) shared by the components. */
  class EntityList<V> {
    var items: seq<Entity<V>>

    /** Ids are unique; hence no object occurs twice. */
    ghost predicate Valid()
      reads this
    {
      Distinct(IdsOf(items))
    }

    /** The collection's value. */
    ghost function Model(): (m: seq<Record<V>>)
      reads this, items
    {
      Snaps(items)
    }

    constructor (es: seq<Entity<V>>)
      requires Distinct(IdsOf(es))
      ensures Valid() && items == es
    {
      items := es;
    }

    /** Reconcile a pushed or returned entity: merge it into the entity with its
        id, in place, or push the payload object itself at the tail. */
    method Upsert(p: Entity<V>)
      requires Valid()
      modifies this, items
      ensures Valid()
      ensures Model() == Reconcile.Upsert(old(Model()), old(p.Snap()))
      ensures p.id in old(IdsOf(items)) ==> items == old(items)
      ensures p.id !in old(IdsOf(items)) ==> items == old(items) + [p]
    {
      var matches := Filter(items, p.id);
      if |matches| == 0 {
        items := items + [p];
        assert IdsOf(items) == old(IdsOf(items)) + [p.id];
        forall i | 0 <= i < |old(items)| ensures items[i].Snap() == old(items[i].Snap()) {
        }
        assert Model() == old(Model()) + [old(p.Snap())];
      } else {
        var existing := matches[0];
        ghost var k := IndexOf(IdsOf(items), p.id);
        ghost var merged := Merge(existing.Snap(), p.Snap());
        existing.fields := existing.fields + p.fields;
        forall i | 0 <= i < |items| && i != k ensures items[i].Snap() == old(items[i].Snap()) {
          assert IdsOf(items)[i] != IdsOf(items)[k];
        }
        assert Model() == old(Model())[k := merged];
      }
    }

    /** Remove the entity with the given id from the array, if there is one. */
    method RemoveById(id: Id)
      requires Valid()
      modifies this
      ensures Valid()
      ensures Model() == Reconcile.RemoveById(old(Model()), id)
      ensures var i := IndexOf(old(IdsOf(items)), id);
                items == if i > -1 then old(items[..i] + items[i + 1..]) else old(items)
    {
      var index := IndexOf(IdsOf(items), id);
      if index > -1 {
        items := items[..index] + items[index + 1..];
        assert Model() == old(Model())[..index] + old(Model())[index + 1..];
        Reconcile.RemoveKeepsUnique(old(Model()), id);
      }
    }

    /** Push the returned entity object unless an entity with its id is already there. */
    method InsertIfAbsent(p: Entity<V>)
      requires Valid()
      modifies this
      ensures Valid()
      ensures Model() == Reconcile.InsertIfAbsent(old(Model()), p.Snap())
      ensures items == if p.id in old(IdsOf(items)) then old(items) else old(items) + [p]
    {
      if |Filter(items, p.id)| == 0 {
        items := items + [p];
        assert IdsOf(items) == old(IdsOf(items)) + [p.id];
        assert Model() == old(Model()) + [p.Snap()];
      }
    }
  }
}
