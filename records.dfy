/**
 * Entities as the dashboard holds them: an identity key `id` plus whatever
 * other fields the server sent (a match's name, rosters and games, a game's
 * name, swapped flag and sides, a player's name). The values of those fields
 * are opaque to the reconciliation logic, hence the type parameter V.
 */
module Records {

  /** GraphQL `ID` values: opaque strings compared with `===`. */
  type Id = string

  /** The name of a field other than `id`. */
  type Field = string

  /** One entity, or one payload of a push notification or mutation response.
      A payload may carry only some fields: the match stream sends `id` and `name` only. */
  datatype Record<V> = Record(id: Id, fields: map<Field, V>)

  /** `Object.assign(target, payload)`: a shallow merge in which every field the
      payload carries overwrites the target's and every other field is kept. */
  function Merge<V>(target: Record<V>, payload: Record<V>): (r: Record<V>)
    ensures r.id == payload.id
    ensures r.fields.Keys == target.fields.Keys + payload.fields.Keys
    ensures forall f :: f in payload.fields ==> r.fields[f] == payload.fields[f]
    ensures forall f :: f in target.fields && f !in payload.fields ==> r.fields[f] == target.fields[f]
  {
    Record(payload.id, target.fields + payload.fields)
  }

  /** Merging the same payload a second time changes nothing. */
  lemma MergeIdempotent<V>(target: Record<V>, payload: Record<V>)
    ensures Merge(Merge(target, payload), payload) == Merge(target, payload)
  {
    var once := Merge(target, payload);
    assert once.fields + payload.fields == once.fields;
  }

  /** `xs.map(x => x.id)`, for any kind of element whose id never changes. */
  function MapIds<T>(s: seq<T>, key: T -> Id): (ids: seq<Id>)
    ensures |ids| == |s|
    ensures forall i :: 0 <= i < |s| ==> ids[i] == key(s[i])
  {
    seq(|s|, i requires 0 <= i < |s| => key(s[i]))
  }

  /** The ids of a list of entity values. */
  function Ids<V>(s: seq<Record<V>>): (ids: seq<Id>)
    ensures |ids| == |s|
    ensures forall i :: 0 <= i < |s| ==> ids[i] == s[i].id
  {
    MapIds(s, (r: Record<V>) => r.id)
  }

  /** `ids.indexOf(id)`: the first position holding `id`, or -1 when there is none. */
  function IndexOf(ids: seq<Id>, id: Id): (r: int)
    ensures -1 <= r < |ids|
    ensures r == -1 <==> id !in ids
    ensures 0 <= r ==> ids[r] == id && id !in ids[..r]
  {
    if ids == [] then -1
    else if ids[0] == id then 0
    else
      assert ids == [ids[0]] + ids[1..];
      var k := IndexOf(ids[1..], id);
      if k == -1 then -1
      else
        assert ids[..k + 1] == [ids[0]] + ids[1..][..k];
        k + 1
  }

  /** No identifier occurs twice. */
  predicate Distinct(ids: seq<Id>)
  {
    forall i, j :: 0 <= i < j < |ids| ==> ids[i] != ids[j]
  }

  /** The collection invariant: ids are unique. */
  predicate Unique<V>(s: seq<Record<V>>)
  {
    Distinct(Ids(s))
  }

  /** `indexOf` returns the first position holding the id. */
  lemma IndexOfFirst(ids: seq<Id>, id: Id, k: nat)
    requires k < |ids| && ids[k] == id
    requires forall j :: 0 <= j < k ==> ids[j] != id
    ensures IndexOf(ids, id) == k
  {
    assert ids[..k + 1][k] == id;
  }

  /** Among distinct ids, `indexOf` finds the one position holding the id. */
  lemma IndexOfDistinct(ids: seq<Id>, id: Id, k: nat)
    requires Distinct(ids) && k < |ids| && ids[k] == id
    ensures IndexOf(ids, id) == k
  {
  }
}
