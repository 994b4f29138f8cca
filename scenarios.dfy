/**
 * Worked examples of the reconciliation policy, stated as lemmas and as a
 * client of the in-place collection whose assertions the verifier checks.
 */
module Scenarios {
  import opened Records
  import Reconcile
  import Collections
  import Scores

  /** A match as the bulk read delivers it; field values are strings here. */
  function FullMatch(id: Id, name: string): (r: Record<string>)
  {
    Record(id, map["name" := name, "top" := "p1", "bottom" := "p2", "games" := "g1"])
  }

  /** The first push for a match appends it to an empty list. */
  lemma FirstPushAppends()
    ensures Reconcile.Upsert([], Record("1", map["name" := "A"])) == [Record("1", map["name" := "A"])]
  {
    Reconcile.UpsertAbsent([], Record("1", map["name" := "A"]));
  }

  /** A match push `{id, name}` renames the match in its slot and keeps its rosters and games. */
  lemma RenameKeepsRosters()
    ensures Reconcile.Upsert([FullMatch("1", "A"), FullMatch("2", "C")], Record("1", map["name" := "B"]))
              == [FullMatch("1", "B"), FullMatch("2", "C")]
  {
    var s := [FullMatch("1", "A"), FullMatch("2", "C")];
    var p := Record("1", map["name" := "B"]);
    Reconcile.UpsertPresent(s, p, 0);
    assert Reconcile.Upsert(s, p)[0].fields == FullMatch("1", "B").fields;
  }

  /** An entity with no fields besides its id. */
  function Bare(id: Id): (r: Record<string>)
  {
    Record(id, map[])
  }

  /** Removing id 1 from `[{id:1},{id:2}]` leaves `[{id:2}]`, and removing it again changes nothing. */
  lemma RemoveTwice()
    ensures Reconcile.RemoveById([Bare("1"), Bare("2")], "1") == [Bare("2")]
    ensures Reconcile.RemoveById(Reconcile.RemoveById([Bare("1"), Bare("2")], "1"), "1") == [Bare("2")]
  {
    var s := [Bare("1"), Bare("2")];
    assert Ids(s) == ["1", "2"];
    Reconcile.RemovePresent(s, "1", 0);
    Reconcile.RemoveIdempotent(s, "1");
  }

  /** An updateSide result for side 5 with 11 points, where side 5 is yellow, sets yellow only. */
  lemma YellowUpdate(black: Scores.SideState)
    requires black.id != "5"
    ensures Scores.ApplyResult(Scores.Sides(Scores.SideState("5", 7), black), Scores.SideState("5", 11))
              == Scores.Sides(Scores.SideState("5", 11), black)
  {
  }

  /** The same push into a list holding only that match. */
  lemma RenameSingle()
    ensures Reconcile.Upsert([FullMatch("1", "A")], Record("1", map["name" := "B"])) == [FullMatch("1", "B")]
  {
    var p := Record("1", map["name" := "B"]);
    Reconcile.UpsertPresent([FullMatch("1", "A")], p, 0);
    assert Reconcile.Upsert([FullMatch("1", "A")], p)[0].fields == FullMatch("1", "B").fields;
  }

  /** A component holding a reference to a match sees the pushed name: the merge
      writes into the object the list already holds. */
  method ReferenceSeesMerge()
  {
    var m := new Collections.Entity("1", FullMatch("1", "A").fields);
    var matches := new Collections.EntityList([m]);
    var push := new Collections.Entity("1", map["name" := "B"]);
    assert matches.Model() == [FullMatch("1", "A")];
    assert push.id in Collections.IdsOf(matches.items) by {
      assert Collections.IdsOf(matches.items)[0] == "1";
    }
    RenameSingle();
    matches.Upsert(push);
    assert matches.items == [m];
    assert m.Snap() == FullMatch("1", "B");
  }

  /** Pushes for matches 1, 2 and 1 again, into an empty list, leave two
      matches, 1 before 2. */
  lemma RepeatedPushesFirstSeen()
    ensures Ids(Reconcile.UpsertAll([], [Bare("1"), Bare("2"), Bare("1")])) == ["1", "2"]
    ensures |Reconcile.UpsertAll([], [Bare("1"), Bare("2"), Bare("1")])| == 2
  {
    var ps := [Bare("1"), Bare("2"), Bare("1")];
    var empty: seq<Record<string>> := [];
    Reconcile.UpsertAllFirstSeen(empty, ps);
    assert Ids(empty) == [];
    assert Ids(ps) == ["1", "2", "1"];
    assert ["1"][0] == "1";
    assert Reconcile.FirstSeen([], ["1", "2", "1"]) == ["1", "2"] by {
      assert Reconcile.FirstSeen([], ["1", "2", "1"]) == Reconcile.FirstSeen(["1"], ["2", "1"]);
      assert "2" !in ["1"];
      assert Reconcile.FirstSeen(["1"], ["2", "1"]) == Reconcile.FirstSeen(["1", "2"], ["1"]);
      assert "1" in ["1", "2"];
    }
  }
}
