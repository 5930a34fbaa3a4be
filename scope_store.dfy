/**
 * The client_scope association table and the database connection that the
 * scope form writes through: rows are (client, scope) pairs, transactions
 * nest as savepoints, and every statement the form issues is appended to a
 * log so that the order of begin, delete, insert, commit and rollback can be
 * stated.
 */
module ScopeStore {

  /** One row of client_scope: this client may request this scope. */
  datatype ClientScope = ClientScope(clientId: int, scopeId: int)

  /**
   * What ClientScope::save() does with one row: it is stored, validation or
   * the insert reports false, or the insert throws.
   */
  datatype SaveOutcome = Saved | NotSaved | Threw

  /** The statements issued against the connection, in order. */
  datatype Event =
    | Began
    | Deleted(clientId: int, scopeIds: set<int>, count: nat)
    | Attempt(row: ClientScope, outcome: SaveOutcome)
    | Committed
    | RolledBack

  /** The rows deleteAll(['client_id' => c, 'scope_id' => ids]) matches. */
  function Matching(rows: set<ClientScope>, clientId: int, scopeIds: set<int>): set<ClientScope>
  {
    set r | r in rows && r.clientId == clientId && r.scopeId in scopeIds
  }

  /**
   * The connection: the table's rows, one saved copy of the rows per open
   * transaction level (outermost first), and the statement log.
   */
  class Database {
    var rows: set<ClientScope>
    var savepoints: seq<set<ClientScope>>
    var log: seq<Event>

    constructor (rows: set<ClientScope>)
      ensures this.rows == rows && savepoints == [] && log == []
    {
      this.rows := rows;
      savepoints := [];
      log := [];
    }

    /** Transaction::$level: how many transactions are open. */
    function Level(): nat
      reads this
    {
      |savepoints|
    }

    /** Transaction::$isActive. */
    predicate IsActive()
      reads this
    {
      savepoints != []
    }

    /** beginTransaction(): opens a transaction (a savepoint when one is open) and reports its level. */
    method BeginTransaction() returns (level: nat)
      modifies this
      ensures savepoints == old(savepoints) + [old(rows)]
      ensures level == Level() == old(Level()) + 1
      ensures rows == old(rows) && log == old(log) + [Began]
    {
      savepoints := savepoints + [rows];
      level := |savepoints|;
      log := log + [Began];
    }

    /** commit(): closes the innermost transaction and keeps what it wrote. */
    method Commit()
      requires IsActive()
      modifies this
      ensures savepoints == old(savepoints)[..old(Level()) - 1]
      ensures Level() == old(Level()) - 1
      ensures rows == old(rows) && log == old(log) + [Committed]
    {
      savepoints := savepoints[..|savepoints| - 1];
      log := log + [Committed];
    }

    /** rollBack(): closes the innermost transaction and restores the rows it started from. */
    method RollBack()
      requires IsActive()
      modifies this
      ensures savepoints == old(savepoints)[..old(Level()) - 1]
      ensures rows == old(savepoints)[old(Level()) - 1]
      ensures log == old(log) + [RolledBack]
    {
      rows := savepoints[|savepoints| - 1];
      savepoints := savepoints[..|savepoints| - 1];
      log := log + [RolledBack];
    }

    /** ClientScope::deleteAll: removes this client's rows for the given scopes and counts them. */
    method DeleteAll(clientId: int, scopeIds: set<int>) returns (count: nat)
      modifies this
      ensures rows == old(rows) - Matching(old(rows), clientId, scopeIds)
      ensures count == |Matching(old(rows), clientId, scopeIds)|
      ensures savepoints == old(savepoints) && log == old(log) + [Deleted(clientId, scopeIds, count)]
    {
      var gone := Matching(rows, clientId, scopeIds);
      rows := rows - gone;
      count := |gone|;
      log := log + [Deleted(clientId, scopeIds, count)];
    }

    /**
     * ClientScope::save() for a new row, whose outcome is given: the row is
     * stored exactly when the save succeeds.
     */
    method Insert(row: ClientScope, outcome: SaveOutcome) returns (saved: bool)
      modifies this
      ensures saved <==> outcome == Saved
      ensures rows == old(rows) + (if outcome == Saved then {row} else {})
      ensures savepoints == old(savepoints) && log == old(log) + [Attempt(row, outcome)]
    {
      saved := outcome == Saved;
      if saved {
        rows := rows + {row};
      }
      log := log + [Attempt(row, outcome)];
    }
  }
}
