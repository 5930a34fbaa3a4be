/**
 * The form that reconciles a client's scopes: it remembers the scope ids the
 * client had when it was built, validates the submitted ids, and inside one
 * transaction deletes the ids no longer selected and inserts the newly
 * selected ones, committing only when every step succeeded.
 */
module ScopesForm {
  import opened Wrappers
  import opened ScopeStore

  /** array_diff on lists of ids: the entries of `a` that are not in `b`, in order. */
  function Diff(a: seq<int>, b: seq<int>): (d: seq<int>)
    ensures |d| <= |a|
    ensures forall x :: x in d <==> x in a && x !in b
  {
    if a == [] then []
    else (if a[0] in b then [] else [a[0]]) + Diff(a[1..], b)
  }

  function Elements(s: seq<int>): set<int>
  {
    set x | x in s
  }

  /** The range rule: an empty submission is skipped, otherwise every id must be a known scope id. */
  predicate InRange(submitted: Option<seq<int>>, known: set<int>)
  {
    submitted.None? || forall x :: x in submitted.value ==> x in known
  }

  /** The default rule: an empty submission becomes the empty list. */
  function Defaulted(submitted: Option<seq<int>>): Option<seq<int>>
  {
    if submitted.None? then Some([]) else submitted
  }

  /**
   * What the saves of new rows do, which the form cannot see: the rows whose
   * save() reports false and the rows whose save() throws; every other row saves.
   */
  datatype SaveFaults = SaveFaults(rejected: set<ClientScope>, throwing: set<ClientScope>)

  function OutcomeOf(faults: SaveFaults, row: ClientScope): SaveOutcome
  {
    if row in faults.throwing then Threw else if row in faults.rejected then NotSaved else Saved
  }

  /** The save events of the insert loop over `ids`, one per id. */
  function SavesOf(clientId: int, ids: seq<int>, faults: SaveFaults): (es: seq<Event>)
    ensures |es| == |ids|
  {
    if ids == [] then []
    else
      var last := ClientScope(clientId, ids[|ids| - 1]);
      SavesOf(clientId, ids[..|ids| - 1], faults) + [Attempt(last, OutcomeOf(faults, last))]
  }

  lemma {:induction false} SavesOfAt(clientId: int, ids: seq<int>, faults: SaveFaults, j: nat)
    requires j < |ids|
    ensures SavesOf(clientId, ids, faults)[j] == Attempt(ClientScope(clientId, ids[j]), OutcomeOf(faults, ClientScope(clientId, ids[j])))
  {
    if j < |ids| - 1 {
      SavesOfAt(clientId, ids[..|ids| - 1], faults, j);
    }
  }

  /** How many ids the insert loop reaches: all of them, or up to and including the first save that throws. */
  function Attempted(clientId: int, ids: seq<int>, faults: SaveFaults): (n: nat)
    ensures n <= |ids|
    ensures forall j :: 0 <= j < n - 1 ==> OutcomeOf(faults, ClientScope(clientId, ids[j])) != Threw
    ensures n < |ids| ==> 0 < n && OutcomeOf(faults, ClientScope(clientId, ids[n - 1])) == Threw
  {
    if ids == [] then 0
    else if OutcomeOf(faults, ClientScope(clientId, ids[0])) == Threw then 1
    else 1 + Attempted(clientId, ids[1..], faults)
  }

  /** Every save of the loop over `ids` succeeds. */
  predicate AllSaved(clientId: int, ids: seq<int>, faults: SaveFaults)
  {
    forall x :: x in ids ==> OutcomeOf(faults, ClientScope(clientId, x)) == Saved
  }

  /** Some save of the loop over `ids` throws. */
  predicate SomeThrows(clientId: int, ids: seq<int>, faults: SaveFaults)
  {
    exists x :: x in ids && OutcomeOf(faults, ClientScope(clientId, x)) == Threw
  }

  /** The rows the insert loop over `ids` stores. */
  function Inserted(clientId: int, ids: seq<int>, faults: SaveFaults): set<ClientScope>
  {
    if ids == [] then {}
    else
      var last := ClientScope(clientId, ids[|ids| - 1]);
      Inserted(clientId, ids[..|ids| - 1], faults) + (if OutcomeOf(faults, last) == Saved then {last} else {})
  }

  lemma {:induction false} InsertedMembers(clientId: int, ids: seq<int>, faults: SaveFaults)
    ensures forall r :: r in Inserted(clientId, ids, faults) <==>
      r.clientId == clientId && r.scopeId in ids && OutcomeOf(faults, r) == Saved
  {
    if ids != [] {
      var front := ids[..|ids| - 1];
      InsertedMembers(clientId, front, faults);
      assert ids == front + [ids[|ids| - 1]];
    }
  }

  /** What runInternal returns: a boolean, or an exception thrown by a save. */
  datatype RunOutcome = Returned(value: bool) | Thrown

  /** The outcome of a run, the rows left in client_scope, and the statements issued. */
  datatype Run = Run(outcome: RunOutcome, rows: set<ClientScope>, events: seq<Event>)

  /**
   * The reconciliation once validation passed: remove `stored` minus
   * `selected`, add `selected` minus `stored`; commit when the delete removed
   * at least one row (or had nothing to do) and every insert saved, roll back
   * to the starting rows otherwise.
   */
  function Reconcile(clientId: int, stored: seq<int>, selected: seq<int>, rows: set<ClientScope>,
                     faults: SaveFaults): (r: Run)
    ensures r.outcome != Returned(true) ==> r.rows == rows
    ensures 2 <= |r.events| && r.events[0] == Began
    ensures r.events[|r.events| - 1] == (if r.outcome == Returned(true) then Committed else RolledBack)
  {
    var toRemove := Diff(stored, selected);
    var toAdd := Diff(selected, stored);
    var removed := Matching(rows, clientId, Elements(toRemove));
    var deletes := if toRemove == [] then [] else [Deleted(clientId, Elements(toRemove), |removed|)];
    var saves := SavesOf(clientId, toAdd[..Attempted(clientId, toAdd, faults)], faults);
    var committed := (toRemove == [] || 0 < |removed|) && AllSaved(clientId, toAdd, faults);
    Run(if SomeThrows(clientId, toAdd, faults) then Thrown else Returned(committed),
        if committed then rows - removed + Inserted(clientId, toAdd, faults) else rows,
        [Began] + deletes + saves + [if committed then Committed else RolledBack])
  }

  /** runInternal as a whole: a submission that fails validation returns false and issues nothing. */
  function Expected(clientId: int, stored: seq<int>, submitted: Option<seq<int>>, known: set<int>,
                    rows: set<ClientScope>, faults: SaveFaults): (r: Run)
    ensures r.events == [] <==> !InRange(submitted, known)
    ensures !InRange(submitted, known) ==> r == Run(Returned(false), rows, [])
    ensures r.outcome != Returned(true) ==> r.rows == rows
  {
    if !InRange(submitted, known) then Run(Returned(false), rows, [])
    else Reconcile(clientId, stored, Defaulted(submitted).value, rows, faults)
  }

  class Scopes {
    const clientId: int
    /** The ids the client had when the form was built (_setScopes). */
    const stored: seq<int>
    /** The submitted ids; None stands for an empty submission (null or ''). */
    var scopes: Option<seq<int>>

    /** The form starts with the client's current scope ids selected. */
    constructor (clientId: int, clientScopes: seq<int>)
      ensures this.clientId == clientId && stored == clientScopes && scopes == Some(clientScopes)
    {
      this.clientId := clientId;
      stored := clientScopes;
      scopes := Some(clientScopes);
    }

    /** validate(): the range rule, then the default rule. */
    method Validate(known: set<int>) returns (ok: bool)
      modifies this
      ensures ok == InRange(old(scopes), known)
      ensures scopes == Defaulted(old(scopes))
    {
      ok := InRange(scopes, known);
      scopes := Defaulted(scopes);
    }

    /**
     * runInternal(): `faults` says which saves fail or throw. The result, the
     * rows and the statement log are those of Expected, and every
     * transaction level opened here is closed again.
     */
    method RunInternal(db: Database, known: set<int>, faults: SaveFaults) returns (r: RunOutcome)
      modifies this, db
      ensures var e := Expected(clientId, stored, old(scopes), known, old(db.rows), faults);
        r == e.outcome && db.rows == e.rows && db.log == old(db.log) + e.events
      ensures db.savepoints == old(db.savepoints)
      ensures scopes == Defaulted(old(scopes))
    {
      var ok := Validate(known);
      if !ok {
        return Returned(false);
      }
      r := Transact(db, scopes.value, faults);
    }

    /** The body of runInternal after validation passed: the transaction, and the finally block. */
    method Transact(db: Database, selected: seq<int>, faults: SaveFaults) returns (r: RunOutcome)
      modifies db
      ensures var e := Reconcile(clientId, stored, selected, old(db.rows), faults);
        r == e.outcome && db.rows == e.rows && db.log == old(db.log) + e.events
      ensures db.savepoints == old(db.savepoints)
    {
      ghost var rows0, log0 := db.rows, db.log;
      var level := db.BeginTransaction();
      var result := true;

      var toRemove := Diff(stored, selected);
      ghost var removed := Matching(rows0, clientId, Elements(toRemove));
      ghost var deletes: seq<Event> := [];
      if toRemove != [] {
        var count := db.DeleteAll(clientId, Elements(toRemove));
        deletes := [Deleted(clientId, Elements(toRemove), count)];
        result := result && 0 < count;
      } else {
        AppendNothing(db.log);
      }
      assert db.log == log0 + [Began] + deletes;
      assert result == (toRemove == [] || 0 < |removed|);

      var toAdd := Diff(selected, stored);
      var threw;
      result, threw := InsertAdded(db, toAdd, faults, result);
      ghost var saves := SavesOf(clientId, toAdd[..Attempted(clientId, toAdd, faults)], faults);
      assert db.log == log0 + [Began] + deletes + saves;

      if !threw && result {
        db.Commit();
        assert db.rows == rows0 - removed + Inserted(clientId, toAdd, faults);
      }
      if db.IsActive() && db.Level() == level {
        db.RollBack();
        assert db.rows == rows0;
      }
      r := if threw then Thrown else Returned(result);
      ghost var last := if !threw && result then Committed else RolledBack;
      assert db.log == log0 + [Began] + deletes + saves + [last];
      Regroup(log0, [Began], deletes, saves, [last]);
    }

    /**
     * The insert loop: one save per id to add, each and-ed into `result`
     * without short-circuit, until a save throws.
     */
    method InsertAdded(db: Database, toAdd: seq<int>, faults: SaveFaults, result0: bool)
      returns (result: bool, threw: bool)
      modifies db
      ensures var n := Attempted(clientId, toAdd, faults);
        && db.rows == old(db.rows) + Inserted(clientId, toAdd[..n], faults)
        && db.log == old(db.log) + SavesOf(clientId, toAdd[..n], faults)
      ensures db.savepoints == old(db.savepoints)
      ensures threw == SomeThrows(clientId, toAdd, faults)
      ensures !threw ==> Attempted(clientId, toAdd, faults) == |toAdd|
      ensures !threw ==> db.rows == old(db.rows) + Inserted(clientId, toAdd, faults)
      ensures !threw ==> (result <==> result0 && AllSaved(clientId, toAdd, faults))
    {
      result := result0;
      threw := false;
      var i := 0;
      while i < |toAdd| && !threw
        invariant 0 <= i <= |toAdd|
        invariant db.savepoints == old(db.savepoints)
        invariant db.rows == old(db.rows) + Inserted(clientId, toAdd[..i], faults)
        invariant db.log == old(db.log) + SavesOf(clientId, toAdd[..i], faults)
        invariant threw == SomeThrows(clientId, toAdd[..i], faults)
        invariant threw ==> i == Attempted(clientId, toAdd, faults)
        invariant !threw ==> (result <==> result0 && AllSaved(clientId, toAdd[..i], faults))
      {
        var outcome := OutcomeOf(faults, ClientScope(clientId, toAdd[i]));
        PrefixStep(clientId, toAdd, i, faults);
        if outcome == Threw {
          AttemptedStops(clientId, toAdd, i, faults);
        }
        var saved := SaveNext(db, toAdd, i, faults, old(db.rows), old(db.log));
        threw := outcome == Threw;
        result := result && saved;
        i := i + 1;
      }
      assert toAdd[..|toAdd|] == toAdd;
      if !threw {
        AttemptedStops(clientId, toAdd, |toAdd|, faults);
      }
    }

    /** One iteration of the insert loop: save the row for toAdd[i]. */
    method SaveNext(db: Database, toAdd: seq<int>, i: nat, faults: SaveFaults,
                    ghost rows0: set<ClientScope>, ghost log0: seq<Event>) returns (saved: bool)
      requires i < |toAdd|
      requires db.rows == rows0 + Inserted(clientId, toAdd[..i], faults)
      requires db.log == log0 + SavesOf(clientId, toAdd[..i], faults)
      modifies db
      ensures saved <==> OutcomeOf(faults, ClientScope(clientId, toAdd[i])) == Saved
      ensures db.rows == rows0 + Inserted(clientId, toAdd[..i + 1], faults)
      ensures db.log == log0 + SavesOf(clientId, toAdd[..i + 1], faults)
      ensures db.savepoints == old(db.savepoints)
    {
      var row := ClientScope(clientId, toAdd[i]);
      RowsStep(db.rows, rows0, clientId, toAdd, i, faults);
      LogStep(db.log, log0, clientId, toAdd, i, faults);
      saved := db.Insert(row, OutcomeOf(faults, row));
    }
  }

  lemma Regroup(a: seq<Event>, b: seq<Event>, c: seq<Event>, d: seq<Event>, e: seq<Event>)
    ensures a + b + c + d + e == a + (b + c + d + e)
  {
  }

  lemma AppendNothing(a: seq<Event>)
    ensures a + [] == a
  {
  }

  /** The rows after one more save, stated as the loop invariant needs them. */
  lemma RowsStep(before: set<ClientScope>, start: set<ClientScope>, clientId: int, ids: seq<int>, i: nat, faults: SaveFaults)
    requires i < |ids| && before == start + Inserted(clientId, ids[..i], faults)
    ensures var row := ClientScope(clientId, ids[i]);
      before + (if OutcomeOf(faults, row) == Saved then {row} else {}) == start + Inserted(clientId, ids[..i + 1], faults)
  {
    assert ids[..i + 1][..i] == ids[..i];
  }

  /** The log after one more save, stated as the loop invariant needs it. */
  lemma LogStep(before: seq<Event>, start: seq<Event>, clientId: int, ids: seq<int>, i: nat, faults: SaveFaults)
    requires i < |ids| && before == start + SavesOf(clientId, ids[..i], faults)
    ensures var row := ClientScope(clientId, ids[i]);
      before + [Attempt(row, OutcomeOf(faults, row))] == start + SavesOf(clientId, ids[..i + 1], faults)
  {
    assert ids[..i + 1][..i] == ids[..i];
  }

  /** One more iteration of the insert loop, stated on the prefix it has covered. */
  lemma PrefixStep(clientId: int, ids: seq<int>, i: nat, faults: SaveFaults)
    requires i < |ids|
    ensures var row := ClientScope(clientId, ids[i]);
      && (SomeThrows(clientId, ids[..i + 1], faults) <==> SomeThrows(clientId, ids[..i], faults) || OutcomeOf(faults, row) == Threw)
      && (AllSaved(clientId, ids[..i + 1], faults) <==> AllSaved(clientId, ids[..i], faults) && OutcomeOf(faults, row) == Saved)
  {
    assert ids[..i + 1][..i] == ids[..i];
  }

  /**
   * Where the insert loop stops is the number of ids Attempted counts: after
   * the first save that throws, or after the last id.
   */
  lemma AttemptedStops(clientId: int, ids: seq<int>, i: nat, faults: SaveFaults)
    requires i <= |ids| && !SomeThrows(clientId, ids[..i], faults)
    requires i < |ids| ==> OutcomeOf(faults, ClientScope(clientId, ids[i])) == Threw
    ensures Attempted(clientId, ids, faults) == (if i < |ids| then i + 1 else i)
  {
    forall j | 0 <= j < i
      ensures OutcomeOf(faults, ClientScope(clientId, ids[j])) != Threw
    {
      assert ids[j] in ids[..i];
    }
  }
}
