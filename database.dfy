/**
 * database.py: the shared store behind the bot. Each function there runs one
 * SQL statement and swallows `sqlite3.Error`; here each mutator takes a
 * `fault` flag saying whether that statement raised, in which case nothing
 * is committed.
 */
module Database {
  import opened Wrappers
  import opened CodeTable
  import opened Ledger

  /** The contents of both tables at one instant. */
  datatype Db = Db(codes: seq<CodeRow>, ledger: seq<Activity>)

  class Store {
    var codes: seq<CodeRow>
    var ledger: seq<Activity>

    ghost predicate Valid()
      reads this
    {
      WellFormed(codes)
    }

    function Snapshot(): Db
      reads this
    {
      Db(codes, ledger)
    }

    /** Both tables start empty (`CREATE TABLE IF NOT EXISTS` on a new file). */
    constructor ()
      ensures Valid() && codes == [] && ledger == []
    {
      codes := [];
      ledger := [];
    }

    /** `add_code`. */
    method AddCode(code: string, fault: bool)
      requires Valid()
      modifies this
      ensures Valid()
      ensures codes == (if fault then old(codes) else Insert(old(codes), code))
      ensures ledger == old(ledger)
    {
      if !fault {
        codes := Insert(codes, code);
      }
    }

    /** `delete_code`. */
    method DeleteCode(id: int, fault: bool)
      requires Valid()
      modifies this
      ensures Valid()
      ensures codes == (if fault then old(codes) else DeleteId(old(codes), id))
      ensures ledger == old(ledger)
    {
      if !fault {
        DeleteIdWellFormed(codes, id);
        codes := DeleteId(codes, id);
      }
    }

    /** `increment_code_usage`. */
    method IncrementCodeUsage(id: int, fault: bool)
      requires Valid()
      modifies this
      ensures Valid()
      ensures codes == (if fault then old(codes) else IncrementId(old(codes), id))
      ensures ledger == old(ledger)
    {
      if !fault {
        IncrementIdKeepsInvariants(codes, id);
        codes := IncrementId(codes, id);
      }
    }

    /** `log_user_activity`: one record stamped with the current time, appended. */
    method LogUserActivity(user: int, action: Action, code: Option<string>, now: int, fault: bool)
      requires Valid()
      modifies this
      ensures Valid()
      ensures codes == old(codes)
      ensures ledger == (if fault then old(ledger) else old(ledger) + [Activity(user, action, code, now)])
    {
      if !fault {
        ledger := ledger + [Activity(user, action, code, now)];
      }
    }
  }
}
