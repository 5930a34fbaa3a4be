/**
 * What one run of the scope form guarantees about the table and the
 * transaction, stated on Reconcile and Expected, which Scopes.RunInternal is
 * proved to follow.
 */
module ScopesProperties {
  import opened Wrappers
  import opened ScopeStore
  import opened ScopesForm

  /** The scope ids client_scope holds for one client. */
  function ScopeIdsOf(rows: set<ClientScope>, clientId: int): set<int>
  {
    set r | r in rows && r.clientId == clientId :: r.scopeId
  }

  /** array_diff keeps every entry when nothing of `a` is in `b`. */
  lemma {:induction false} DiffKeepsAll(a: seq<int>, b: seq<int>)
    requires forall x :: x in a ==> x !in b
    ensures Diff(a, b) == a
  {
    if a != [] {
      var first := a[0];
      assert first in a;
      forall x | x in a[1..]
        ensures x !in b
      {
        assert x in a;
      }
      DiffKeepsAll(a[1..], b);
      assert a == [first] + a[1..];
    }
  }

  /** array_diff is empty when every entry of `a` is in `b`. */
  lemma {:induction false} DiffEmpty(a: seq<int>, b: seq<int>)
    requires forall x :: x in a ==> x in b
    ensures Diff(a, b) == []
  {
    if a != [] {
      var first := a[0];
      assert first in a;
      forall x | x in a[1..]
        ensures x in b
      {
        assert x in a;
      }
      DiffEmpty(a[1..], b);
    }
  }

  /** A save that throws is the last one the loop attempts. */
  lemma ThrowIsLastAttempt(clientId: int, ids: seq<int>, faults: SaveFaults)
    requires SomeThrows(clientId, ids, faults)
    ensures var n := Attempted(clientId, ids, faults);
      0 < n && OutcomeOf(faults, ClientScope(clientId, ids[n - 1])) == Threw
  {
    var n := Attempted(clientId, ids, faults);
    var x :| x in ids && OutcomeOf(faults, ClientScope(clientId, x)) == Threw;
    var j :| 0 <= j < |ids| && ids[j] == x;
    assert n - 1 < j ==> n < |ids|;
  }

  /** Without a throwing save the loop attempts every id. */
  lemma NoThrowAttemptsAll(clientId: int, ids: seq<int>, faults: SaveFaults)
    requires !SomeThrows(clientId, ids, faults)
    ensures Attempted(clientId, ids, faults) == |ids|
  {
  }

  /** runInternal reports true exactly when it commits. */
  lemma TrueIffCommitted(clientId: int, stored: seq<int>, selected: seq<int>, rows: set<ClientScope>, faults: SaveFaults)
    ensures var toRemove := Diff(stored, selected);
      var toAdd := Diff(selected, stored);
      var removed := Matching(rows, clientId, Elements(toRemove));
      Reconcile(clientId, stored, selected, rows, faults).outcome == Returned(true) <==>
        (toRemove == [] || 0 < |removed|) && AllSaved(clientId, toAdd, faults)
  {
  }

  /**
   * The transaction is opened first and closed last, exactly once: by a
   * commit when the run reports true, by a rollback otherwise; in between
   * come only the delete and the saves.
   */
  lemma TransactionCloses(clientId: int, stored: seq<int>, selected: seq<int>, rows: set<ClientScope>, faults: SaveFaults)
    ensures var e := Reconcile(clientId, stored, selected, rows, faults);
      && 2 <= |e.events| && e.events[0] == Began
      && e.events[|e.events| - 1] == (if e.outcome == Returned(true) then Committed else RolledBack)
      && forall k :: 0 < k < |e.events| - 1 ==> e.events[k].Deleted? || e.events[k].Attempt?
  {
    var e := Reconcile(clientId, stored, selected, rows, faults);
    var toRemove := Diff(stored, selected);
    var toAdd := Diff(selected, stored);
    var removed := Matching(rows, clientId, Elements(toRemove));
    var deletes := if toRemove == [] then [] else [Deleted(clientId, Elements(toRemove), |removed|)];
    var n := Attempted(clientId, toAdd, faults);
    var saves := SavesOf(clientId, toAdd[..n], faults);
    TrueIffCommitted(clientId, stored, selected, rows, faults);
    forall j | 0 <= j < |saves|
      ensures saves[j].Attempt?
    {
      SavesOfAt(clientId, toAdd[..n], faults, j);
    }
    BetweenBeginAndEnd(e.events, deletes, saves);
  }

  /** The events strictly between the first and the last are the deletes and the saves. */
  lemma BetweenBeginAndEnd(events: seq<Event>, deletes: seq<Event>, saves: seq<Event>)
    requires 2 <= |events| && events == [Began] + deletes + saves + [events[|events| - 1]]
    requires forall j :: 0 <= j < |deletes| ==> deletes[j].Deleted?
    requires forall j :: 0 <= j < |saves| ==> saves[j].Attempt?
    ensures forall k :: 0 < k < |events| - 1 ==> events[k].Deleted? || events[k].Attempt?
  {
    forall k | 0 < k < |events| - 1
      ensures events[k].Deleted? || events[k].Attempt?
    {
      if k <= |deletes| {
        assert events[k] == deletes[k - 1];
      } else {
        assert events[k] == saves[k - 1 - |deletes|];
      }
    }
  }

  /** When a save throws, the run rolls back after that save and the table is as it was. */
  lemma ThrownRollsBack(clientId: int, stored: seq<int>, selected: seq<int>, rows: set<ClientScope>, faults: SaveFaults)
    ensures var e := Reconcile(clientId, stored, selected, rows, faults);
      e.outcome == Thrown ==>
        && e.rows == rows && 3 <= |e.events|
        && e.events[|e.events| - 1] == RolledBack
        && e.events[|e.events| - 2].Attempt? && e.events[|e.events| - 2].outcome == Threw
  {
    var e := Reconcile(clientId, stored, selected, rows, faults);
    var toAdd := Diff(selected, stored);
    if e.outcome == Thrown {
      ThrowIsLastAttempt(clientId, toAdd, faults);
      TrueIffCommitted(clientId, stored, selected, rows, faults);
      var n := Attempted(clientId, toAdd, faults);
      SavesOfAt(clientId, toAdd[..n], faults, n - 1);
    }
  }

  /** The save of the j-th id to add is in the log when the loop reaches it. */
  lemma AttemptLogged(clientId: int, stored: seq<int>, selected: seq<int>, rows: set<ClientScope>, faults: SaveFaults, j: nat)
    requires j < Attempted(clientId, Diff(selected, stored), faults)
    ensures var row := ClientScope(clientId, Diff(selected, stored)[j]);
      Attempt(row, OutcomeOf(faults, row)) in Reconcile(clientId, stored, selected, rows, faults).events
  {
    var e := Reconcile(clientId, stored, selected, rows, faults);
    var toRemove := Diff(stored, selected);
    var toAdd := Diff(selected, stored);
    var removed := Matching(rows, clientId, Elements(toRemove));
    var deletes := if toRemove == [] then [] else [Deleted(clientId, Elements(toRemove), |removed|)];
    var saves := SavesOf(clientId, toAdd[..Attempted(clientId, toAdd, faults)], faults);
    var last := if e.outcome == Returned(true) then Committed else RolledBack;
    TransactionCloses(clientId, stored, selected, rows, faults);
    assert e.events == [Began] + deletes + saves + [last];
    SavesOfAt(clientId, toAdd[..Attempted(clientId, toAdd, faults)], faults, j);
    IndexInMiddle([Began], deletes, saves, [last], j);
  }

  lemma IndexInMiddle(a: seq<Event>, b: seq<Event>, c: seq<Event>, d: seq<Event>, j: nat)
    requires j < |c|
    ensures (a + b + c + d)[|a| + |b| + j] == c[j]
  {
  }

  /** When no save throws, every newly selected id gets its save attempted. */
  lemma EveryAdditionAttempted(clientId: int, stored: seq<int>, selected: seq<int>, rows: set<ClientScope>, faults: SaveFaults)
    requires !SomeThrows(clientId, Diff(selected, stored), faults)
    ensures var e := Reconcile(clientId, stored, selected, rows, faults);
      forall x :: x in selected && x !in stored ==>
        Attempt(ClientScope(clientId, x), OutcomeOf(faults, ClientScope(clientId, x))) in e.events
  {
    var toAdd := Diff(selected, stored);
    NoThrowAttemptsAll(clientId, toAdd, faults);
    forall x | x in selected && x !in stored
      ensures Attempt(ClientScope(clientId, x), OutcomeOf(faults, ClientScope(clientId, x))) in Reconcile(clientId, stored, selected, rows, faults).events
    {
      assert x in toAdd;
      var j :| 0 <= j < |toAdd| && toAdd[j] == x;
      AttemptLogged(clientId, stored, selected, rows, faults, j);
    }
  }

  /** Rows of other clients are never touched. */
  lemma OtherClientsUntouched(clientId: int, stored: seq<int>, selected: seq<int>, rows: set<ClientScope>, faults: SaveFaults)
    ensures var e := Reconcile(clientId, stored, selected, rows, faults);
      forall r: ClientScope :: r.clientId != clientId ==> (r in e.rows <==> r in rows)
  {
    InsertedMembers(clientId, Diff(selected, stored), faults);
  }

  /**
   * When the table agrees with the ids the form was built from, the delete
   * step always removes something, so the run commits exactly when every
   * save succeeds.
   */
  lemma InStepCommitsIffSaved(clientId: int, stored: seq<int>, selected: seq<int>, rows: set<ClientScope>, faults: SaveFaults)
    requires ScopeIdsOf(rows, clientId) == Elements(stored)
    ensures var toAdd := Diff(selected, stored);
      Reconcile(clientId, stored, selected, rows, faults).outcome ==
        if SomeThrows(clientId, toAdd, faults) then Thrown else Returned(AllSaved(clientId, toAdd, faults))
  {
    var toRemove := Diff(stored, selected);
    if toRemove != [] {
      var x := toRemove[0];
      assert x in toRemove;
      assert x in ScopeIdsOf(rows, clientId);
      var r :| r in rows && r.clientId == clientId && r.scopeId == x;
      assert r in Matching(rows, clientId, Elements(toRemove));
    }
  }

  /**
   * All or nothing: when the table agrees with the ids the form was built
   * from, a run that reports true leaves the client with exactly the
   * selected ids, and any other run leaves the table as it was.
   */
  lemma AllOrNothing(clientId: int, stored: seq<int>, selected: seq<int>, rows: set<ClientScope>, faults: SaveFaults)
    requires ScopeIdsOf(rows, clientId) == Elements(stored)
    ensures var e := Reconcile(clientId, stored, selected, rows, faults);
      && (e.outcome == Returned(true) ==> ScopeIdsOf(e.rows, clientId) == Elements(selected))
      && (e.outcome != Returned(true) ==> e.rows == rows)
  {
    var e := Reconcile(clientId, stored, selected, rows, faults);
    var toRemove := Diff(stored, selected);
    var toAdd := Diff(selected, stored);
    var removed := Matching(rows, clientId, Elements(toRemove));
    TrueIffCommitted(clientId, stored, selected, rows, faults);
    if e.outcome == Returned(true) {
      InsertedMembers(clientId, toAdd, faults);
      assert e.rows == rows - removed + Inserted(clientId, toAdd, faults);
      forall x | x in Elements(selected)
        ensures x in ScopeIdsOf(e.rows, clientId)
      {
        if x in stored {
          assert x in ScopeIdsOf(rows, clientId);
          var r :| r in rows && r.clientId == clientId && r.scopeId == x;
          assert r in e.rows;
        } else {
          assert ClientScope(clientId, x) in e.rows;
        }
      }
      forall x | x in ScopeIdsOf(e.rows, clientId)
        ensures x in Elements(selected)
      {
        var r :| r in e.rows && r.clientId == clientId && r.scopeId == x;
        if r in rows - removed {
          assert x in ScopeIdsOf(rows, clientId);
        }
      }
    }
  }

  /** Submitting the ids the form was built from (in any order) changes nothing and commits. */
  lemma UnchangedSelection(clientId: int, stored: seq<int>, selected: seq<int>, rows: set<ClientScope>, faults: SaveFaults)
    requires Elements(selected) == Elements(stored)
    ensures Reconcile(clientId, stored, selected, rows, faults) == Run(Returned(true), rows, [Began, Committed])
  {
    forall x | x in stored
      ensures x in selected
    {
      assert x in Elements(stored);
    }
    forall x | x in selected
      ensures x in stored
    {
      assert x in Elements(selected);
    }
    DiffEmpty(stored, selected);
    DiffEmpty(selected, stored);
    assert Matching(rows, clientId, Elements([])) == {};
  }

  /**
   * An empty submission (null, '' or []) removes every id the form was built
   * from; it reports false and rolls back when none of them is in the table.
   */
  lemma EmptySubmissionRemovesAll(clientId: int, stored: seq<int>, submitted: Option<seq<int>>, known: set<int>,
                                  rows: set<ClientScope>, faults: SaveFaults)
    requires submitted == None || submitted == Some([])
    ensures var e := Expected(clientId, stored, submitted, known, rows, faults);
      var removed := Matching(rows, clientId, Elements(stored));
      var ok := stored == [] || removed != {};
      e.outcome == Returned(ok) && e.rows == (if ok then rows - removed else rows)
  {
    assert Defaulted(submitted) == Some([]);
    EmptySelection(clientId, stored, rows, faults);
  }

  lemma EmptySelection(clientId: int, stored: seq<int>, rows: set<ClientScope>, faults: SaveFaults)
    ensures var e := Reconcile(clientId, stored, [], rows, faults);
      var removed := Matching(rows, clientId, Elements(stored));
      var ok := stored == [] || removed != {};
      e.outcome == Returned(ok) && e.rows == (if ok then rows - removed else rows)
  {
    DiffKeepsAll(stored, []);
    DiffEmpty([], stored);
    assert Inserted(clientId, [], faults) == {};
  }

  /**
   * The delete step only asks that some row was deleted: a stale form whose
   * client has only one of the two ids to remove still reports true, while
   * one whose ids are all gone already reports false and rolls back although
   * the table already matches the selection.
   */
  lemma DeleteNeedsOneRow(faults: SaveFaults)
    ensures Reconcile(7, [1, 2], [], {ClientScope(7, 1)}, faults) == Run(Returned(true), {}, [Began, Deleted(7, {1, 2}, 1), Committed])
    ensures Reconcile(7, [1, 2], [], {}, faults) == Run(Returned(false), {}, [Began, Deleted(7, {1, 2}, 0), RolledBack])
  {
    DiffKeepsAll([1, 2], []);
    DiffEmpty([], [1, 2]);
    assert Elements([1, 2]) == {1, 2};
    assert Matching({ClientScope(7, 1)}, 7, {1, 2}) == {ClientScope(7, 1)};
    assert Matching({}, 7, {1, 2}) == {};
  }

  /**
   * A stale form can report true while the table differs from the selection:
   * built with ids 1, 2 and 3 for a client whose table holds only id 1, and
   * submitted with 3 alone, the delete removes id 1 and so succeeds, nothing
   * is added because 3 was remembered, and the client is left with no id.
   */
  lemma StaleFormReportsTrue(faults: SaveFaults)
    ensures Reconcile(7, [1, 2, 3], [3], {ClientScope(7, 1)}, faults) ==
      Run(Returned(true), {}, [Began, Deleted(7, {1, 2}, 1), Committed])
    ensures ScopeIdsOf({}, 7) != Elements([3])
  {
    DiffEmpty([3], [1, 2, 3]);
    assert [1, 2, 3][1..] == [2, 3] && [2, 3][1..] == [3] && [3][1..] == [];
    assert Diff([1, 2, 3], [3]) == [1, 2];
    assert Elements([1, 2]) == {1, 2};
    assert Matching({ClientScope(7, 1)}, 7, {1, 2}) == {ClientScope(7, 1)};
    assert 3 in Elements([3]);
  }

  /**
   * A save that reports false does not stop the loop: the later id is still
   * attempted, and the run reports false and rolls back.
   */
  lemma SavesContinueAfterFalse(c: int)
    ensures Reconcile(c, [], [1, 2], {}, SaveFaults({ClientScope(c, 1)}, {})) ==
      Run(Returned(false), {}, [Began, Attempt(ClientScope(c, 1), NotSaved), Attempt(ClientScope(c, 2), Saved), RolledBack])
  {
    var faults := SaveFaults({ClientScope(c, 1)}, {});
    var ids := [1, 2];
    DiffKeepsAll(ids, []);
    DiffEmpty([], ids);
    assert ids[1..] == [2] && [2][1..] == [];
    assert Attempted(c, ids, faults) == 2;
    assert ids[..2] == ids && ids[..1] == [1] && [1][..0] == [];
    assert SavesOf(c, ids, faults) == [Attempt(ClientScope(c, 1), NotSaved), Attempt(ClientScope(c, 2), Saved)];
    assert !SomeThrows(c, ids, faults);
    assert 1 in ids;
  }

  /** A save that throws ends the loop at once: the later id is never attempted. */
  lemma ThrowStopsSaves(c: int)
    ensures Reconcile(c, [], [1, 2], {}, SaveFaults({}, {ClientScope(c, 1)})) ==
      Run(Thrown, {}, [Began, Attempt(ClientScope(c, 1), Threw), RolledBack])
  {
    var ids := [1, 2];
    DiffKeepsAll(ids, []);
    DiffEmpty([], ids);
    assert ids[..1] == [1] && [1][..0] == [];
    assert 1 in ids;
  }
}
