/**
 * One render of the Players component. The component holds the last
 * deletePlayer result and the last createPlayer result for as long as it
 * lives, and folds both into the shared `players` array on every render: the
 * delete result first, then the create result. The intended handling, in
 * which each confirmed result is folded in once on arrival, is modelled
 * alongside as a fold over a sequence of create and delete events.
 */
module PlayersRender {
  import opened Records
  import opened Reconcile

  datatype Option<T> = None | Some(value: T)

  /** The render as the component does it: remove the deleted id, then insert
      the created player if absent. */
  function RenderAsWritten<V>(s: seq<Record<V>>, deleted: Option<Id>, created: Option<Record<V>>): (r: seq<Record<V>>)
    ensures created.Some? ==> created.value.id in Ids(r)
    ensures |r| <= |s| + 1
  {
    var afterDelete := if deleted.Some? then RemoveById(s, deleted.value) else s;
    if created.Some? then InsertIfAbsent(afterDelete, created.value) else afterDelete
  }

  /** Deleting the player created last does not take it off the list: the
      removal is undone by the held create result in the same render, which
      appends the player again at the tail. */
  lemma DeletedPlayerReappears<V>(s: seq<Record<V>>, p: Record<V>)
    requires Unique(s)
    ensures RenderAsWritten(s, Some(p.id), Some(p)) == RemoveById(s, p.id) + [p]
    ensures |RenderAsWritten(s, Some(p.id), Some(p))| == (if p.id in Ids(s) then |s| else |s| + 1)
  {
    var afterDelete := RemoveById(s, p.id);
    RemoveKeepsUnique(s, p.id);
    var i := IndexOf(Ids(s), p.id);
    if i > -1 {
      RemovePresent(s, p.id, i);
    }
    InsertIfAbsentKeepsUnique(afterDelete, p);
  }

  /** The render with the create result applied before the delete result. */
  function Render<V>(s: seq<Record<V>>, deleted: Option<Id>, created: Option<Record<V>>): (r: seq<Record<V>>)
    ensures |r| <= |s| + 1
    ensures deleted.None? && created.Some? ==> created.value.id in Ids(r)
  {
    var afterCreate := if created.Some? then InsertIfAbsent(s, created.value) else s;
    if deleted.Some? then RemoveById(afterCreate, deleted.value) else afterCreate
  }

  /** With that order the deletion the component still holds always shows, a confirmed creation
      shows unless it was deleted, and ids stay unique. */
  lemma RenderReflectsResults<V>(s: seq<Record<V>>, deleted: Option<Id>, created: Option<Record<V>>)
    requires Unique(s)
    ensures Unique(Render(s, deleted, created))
    ensures deleted.Some? ==> deleted.value !in Ids(Render(s, deleted, created))
    ensures created.Some? && (deleted.None? || deleted.value != created.value.id) ==>
              created.value.id in Ids(Render(s, deleted, created))
  {
    var afterCreate := if created.Some? then InsertIfAbsent(s, created.value) else s;
    if created.Some? {
      InsertIfAbsentKeepsUnique(s, created.value);
    }
    if deleted.Some? {
      RemoveKeepsUnique(afterCreate, deleted.value);
      var i := IndexOf(Ids(afterCreate), deleted.value);
      if i > -1 {
        RemovePresent(afterCreate, deleted.value, i);
        KeptIdsSurvive(afterCreate, i);
      }
    }
  }

  /** Splicing out position k keeps every id other than the one at k. */
  lemma KeptIdsSurvive<V>(s: seq<Record<V>>, k: nat)
    requires k < |s|
    ensures forall id :: id in Ids(s) && id != Ids(s)[k] ==> id in Ids(s[..k] + s[k + 1..])
  {
    IdsSplice(s, k);
    forall id | id in Ids(s) && id != Ids(s)[k] ensures id in Ids(s[..k] + s[k + 1..]) {
      var j :| 0 <= j < |s| && Ids(s)[j] == id;
      if j < k {
        assert Ids(s[..k] + s[k + 1..])[j] == id;
      } else {
        assert Ids(s[..k] + s[k + 1..])[j - 1] == id;
      }
    }
  }

  /** `indexOf` is not affected by appending a different id. */
  lemma IndexOfAppend(ids: seq<Id>, x: Id, id: Id)
    requires x != id
    ensures IndexOf(ids + [x], id) == IndexOf(ids, id)
  {
    var r0 := IndexOf(ids, id);
    if r0 == -1 {
      assert id !in ids + [x];
    } else {
      forall j | 0 <= j < r0 ensures (ids + [x])[j] != id {
        assert ids[..r0][j] == ids[j];
      }
      IndexOfFirst(ids + [x], id, r0);
    }
  }

  /** Removal commutes with appending an entity of another id. */
  lemma RemoveAppend<V>(s: seq<Record<V>>, d: Id, p: Record<V>)
    requires d != p.id
    ensures RemoveById(s + [p], d) == RemoveById(s, d) + [p]
  {
    IdsAppend(s, p);
    IndexOfAppend(Ids(s), p.id, d);
    var i := IndexOf(Ids(s), d);
    if i > -1 {
      assert (s + [p])[..i] + (s + [p])[i + 1..] == (s[..i] + s[i + 1..]) + [p];
    }
  }

  /** Removal brings in no id. */
  lemma RemoveIdsFromOriginal<V>(s: seq<Record<V>>, d: Id)
    ensures forall id :: id in Ids(RemoveById(s, d)) ==> id in Ids(s)
  {
    var i := IndexOf(Ids(s), d);
    if i > -1 {
      IdsSplice(s, i);
      var r := Ids(RemoveById(s, d));
      forall j | 0 <= j < |r| ensures r[j] in Ids(s) {
        assert r[j] == if j < i then Ids(s)[j] else Ids(s)[j + 1];
      }
    }
  }

  /** Both renders agree except when the deleted id is the created one. */
  lemma RenderAgreesOtherwise<V>(s: seq<Record<V>>, d: Id, p: Record<V>)
    requires d != p.id
    ensures Render(s, Some(d), Some(p)) == RenderAsWritten(s, Some(d), Some(p))
  {
    var i := IndexOf(Ids(s), d);
    if p.id in Ids(s) {
      if i > -1 {
        KeptIdsSurvive(s, i);
      }
    } else {
      RemoveAppend(s, d, p);
      RemoveIdsFromOriginal(s, d);
    }
  }

  /** Reordering alone does not fix the render: while a create result is held,
      deleting another player re-lists the player whose deletion was confirmed
      earlier, because the held create result is folded in again. */
  lemma ReorderedRenderRelistsEarlierDeletion<V>(s: seq<Record<V>>, p: Record<V>, d: Id)
    requires p.id != d && p.id !in Ids(s)
    ensures Render(s, Some(d), Some(p)) == RemoveById(s, d) + [p]
    ensures p.id in Ids(Render(s, Some(d), Some(p)))
  {
    RemoveAppend(s, d, p);
    assert Ids(RemoveById(s, d) + [p])[|RemoveById(s, d)|] == p.id;
  }

  /** A confirmed mutation of the players list. */
  datatype PlayerEvent<V> = Created(player: Record<V>) | Deleted(id: Id)

  /** The intended handling: each confirmed result is folded into the list
      once, when it arrives, with the same insert-if-absent and remove-by-id
      steps the component uses. */
  function FoldOnce<V>(s: seq<Record<V>>, e: PlayerEvent<V>): (r: seq<Record<V>>)
    ensures e.Created? ==> e.player.id in Ids(r)
    ensures |r| <= |s| + 1
  {
    match e
    case Created(p) => InsertIfAbsent(s, p)
    case Deleted(id) => RemoveById(s, id)
  }

  /** The list after a sequence of confirmed results, in arrival order. */
  function FoldAll<V>(s: seq<Record<V>>, es: seq<PlayerEvent<V>>): (r: seq<Record<V>>)
    ensures |r| <= |s| + |es|
    decreases |es|
  {
    if es == [] then s else FoldAll(FoldOnce(s, es[0]), es[1..])
  }

  /** Folding two runs of results is folding their concatenation. */
  lemma {:induction false} FoldAllAppend<V>(s: seq<Record<V>>, a: seq<PlayerEvent<V>>, b: seq<PlayerEvent<V>>)
    ensures FoldAll(s, a + b) == FoldAll(FoldAll(s, a), b)
    decreases |a|
  {
    if a == [] {
      assert a + b == b;
    } else {
      assert (a + b)[1..] == a[1..] + b;
      FoldAllAppend(FoldOnce(s, a[0]), a[1..], b);
    }
  }

  /** Folding results keeps player ids unique. */
  lemma {:induction false} FoldAllKeepsUnique<V>(s: seq<Record<V>>, es: seq<PlayerEvent<V>>)
    requires Unique(s)
    ensures Unique(FoldAll(s, es))
    decreases |es|
  {
    if es != [] {
      match es[0] {
        case Created(p) => InsertIfAbsentKeepsUnique(s, p);
        case Deleted(id) => RemoveKeepsUnique(s, id);
      }
      FoldAllKeepsUnique(FoldOnce(s, es[0]), es[1..]);
    }
  }

  /** An absent id stays absent while no creation of it arrives. */
  lemma {:induction false} AbsentStaysAbsent<V>(s: seq<Record<V>>, es: seq<PlayerEvent<V>>, x: Id)
    requires x !in Ids(s)
    requires forall i :: 0 <= i < |es| ==> !(es[i].Created? && es[i].player.id == x)
    ensures x !in Ids(FoldAll(s, es))
    decreases |es|
  {
    if es != [] {
      match es[0] {
        case Created(p) =>
          assert es[0].player.id != x;
          if p.id !in Ids(s) {
            IdsAppend(s, p);
          }
        case Deleted(id) =>
          RemoveIdsFromOriginal(s, id);
      }
      AbsentStaysAbsent(FoldOnce(s, es[0]), es[1..], x);
    }
  }

  /** A present id stays present while no deletion of it arrives. */
  lemma {:induction false} PresentStaysPresent<V>(s: seq<Record<V>>, es: seq<PlayerEvent<V>>, x: Id)
    requires x in Ids(s)
    requires forall i :: 0 <= i < |es| ==> !(es[i].Deleted? && es[i].id == x)
    ensures x in Ids(FoldAll(s, es))
    decreases |es|
  {
    if es != [] {
      match es[0] {
        case Created(p) =>
          if p.id !in Ids(s) {
            IdsAppend(s, p);
          }
        case Deleted(id) =>
          assert es[0].id != x;
          var i := IndexOf(Ids(s), id);
          if i > -1 {
            KeptIdsSurvive(s, i);
          }
      }
      PresentStaysPresent(FoldOnce(s, es[0]), es[1..], x);
    }
  }

  /** With each result folded once, a player whose deletion was confirmed stays
      off the list until a creation of that id is confirmed again, whatever
      happened before and whatever other players are created or deleted after. */
  lemma DeletionStaysUntilCreated<V>(s: seq<Record<V>>, before: seq<PlayerEvent<V>>, x: Id, after: seq<PlayerEvent<V>>)
    requires Unique(s)
    requires forall i :: 0 <= i < |after| ==> !(after[i].Created? && after[i].player.id == x)
    ensures x !in Ids(FoldAll(s, before + [Deleted(x)] + after))
  {
    FoldAllAppend(s, before + [Deleted(x)], after);
    FoldAllAppend(s, before, [Deleted(x)]);
    var mid := FoldAll(s, before);
    FoldAllKeepsUnique(s, before);
    var i := IndexOf(Ids(mid), x);
    if i > -1 {
      RemovePresent(mid, x, i);
    }
    assert FoldAll(mid, [Deleted(x)]) == RemoveById(mid, x);
    AbsentStaysAbsent(RemoveById(mid, x), after, x);
  }

  /** Conversely, a player whose creation was confirmed stays listed until a
      deletion of that id is confirmed. */
  lemma CreationStaysUntilDeleted<V>(s: seq<Record<V>>, before: seq<PlayerEvent<V>>, p: Record<V>, after: seq<PlayerEvent<V>>)
    requires forall i :: 0 <= i < |after| ==> !(after[i].Deleted? && after[i].id == p.id)
    ensures p.id in Ids(FoldAll(s, before + [Created(p)] + after))
  {
    FoldAllAppend(s, before + [Created(p)], after);
    FoldAllAppend(s, before, [Created(p)]);
    var mid := FoldAll(s, before);
    assert FoldAll(mid, [Created(p)]) == InsertIfAbsent(mid, p);
    PresentStaysPresent(InsertIfAbsent(mid, p), after, p.id);
  }
}
