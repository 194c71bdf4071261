/**
 * The `codes` table of database.py (id INTEGER PRIMARY KEY, code TEXT,
 * usage_count INTEGER DEFAULT 0) as a sequence of rows in fetch order, and
 * the pure effect of each statement the store runs against it.
 */
module CodeTable {

  /** Usage count at which a code is retired instead of handed out (bot.py, `code[2] < 10`). */
  const THRESHOLD: nat := 10

  /** One row of the `codes` table. */
  datatype CodeRow = CodeRow(id: int, code: string, usage: nat)

  /**
   * A `SELECT * FROM codes` of a rowid table returns the rows in ascending
   * id order; ids handed out by the store start at 1.
   */
  ghost predicate WellFormed(codes: seq<CodeRow>) {
    && (forall i :: 0 <= i < |codes| ==> codes[i].id >= 1)
    && (forall i, j :: 0 <= i < j < |codes| ==> codes[i].id < codes[j].id)
  }

  /** No code value occurs in two live rows. */
  ghost predicate DistinctCodes(codes: seq<CodeRow>) {
    forall i, j :: 0 <= i < j < |codes| ==> codes[i].code != codes[j].code
  }

  ghost predicate HasId(codes: seq<CodeRow>, id: int) {
    exists i :: 0 <= i < |codes| && codes[i].id == id
  }

  function Max(a: int, b: int): int { if a < b then b else a }

  /**
   * The id SQLite gives the next row of a table without AUTOINCREMENT: one
   * more than the largest id in use, or 1 when the table is empty.
   */
  function NextId(codes: seq<CodeRow>): (next: int)
    ensures forall i :: 0 <= i < |codes| ==> codes[i].id < next
    ensures codes == [] ==> next == 1
    ensures codes != [] ==> exists i :: 0 <= i < |codes| && codes[i].id == next - 1
  {
    if |codes| == 0 then 1
    else if |codes| == 1 then codes[0].id + 1
    else
      var prefix := codes[..|codes| - 1];
      var m := NextId(prefix);
      assert forall i :: 0 <= i < |prefix| ==> prefix[i] == codes[i];
      Max(m, codes[|codes| - 1].id + 1)
  }

  /** `INSERT INTO codes (code) VALUES (?)`: one new row at the end, usage 0, a fresh id. */
  function Insert(codes: seq<CodeRow>, code: string): (r: seq<CodeRow>)
    ensures |r| == |codes| + 1 && r[..|codes|] == codes
    ensures r[|codes|].code == code && r[|codes|].usage == 0
    ensures !HasId(codes, r[|codes|].id)
    ensures WellFormed(codes) ==> WellFormed(r)
  {
    codes + [CodeRow(NextId(codes), code, 0)]
  }

  /** `DELETE FROM codes WHERE id = ?`: the rows with that id go, the others keep their order. */
  function DeleteId(codes: seq<CodeRow>, id: int): (r: seq<CodeRow>)
    ensures forall row :: row in r <==> row in codes && row.id != id
    ensures |r| <= |codes|
    ensures !HasId(codes, id) ==> r == codes
    ensures HasId(codes, id) ==> |r| < |codes|
  {
    if codes == [] then []
    else
      var rest := DeleteId(codes[1..], id);
      assert codes == [codes[0]] + codes[1..];
      if codes[0].id == id then rest
      else
        assert !HasId(codes, id) ==> !HasId(codes[1..], id);
        assert HasId(codes, id) ==> HasId(codes[1..], id) by {
          if HasId(codes, id) {
            var i :| 0 <= i < |codes| && codes[i].id == id;
            assert codes[1..][i - 1].id == id;
          }
        }
        [codes[0]] + rest
  }

  /**
   * `UPDATE codes SET usage_count = usage_count + 1 WHERE id = ?`: every row
   * keeps its place, id and code; only the rows with that id gain one use.
   */
  function IncrementId(codes: seq<CodeRow>, id: int): (r: seq<CodeRow>)
    ensures |r| == |codes|
    ensures forall i :: 0 <= i < |codes| ==>
              && r[i].id == codes[i].id
              && r[i].code == codes[i].code
              && r[i].usage == (if codes[i].id == id then codes[i].usage + 1 else codes[i].usage)
  {
    if codes == [] then []
    else
      var row := codes[0];
      var bumped := if row.id == id then row.(usage := row.usage + 1) else row;
      [bumped] + IncrementId(codes[1..], id)
  }

  /**
   * `SELECT * FROM codes WHERE code = ?` followed by `fetchone() is not None`;
   * a store error makes database.py answer False.
   */
  function CodeExists(codes: seq<CodeRow>, code: string, fault: bool): (b: bool)
    ensures b <==> !fault && exists i :: 0 <= i < |codes| && codes[i].code == code
  {
    if fault || codes == [] then false
    else codes[0].code == code || CodeExists(codes[1..], code, fault)
  }

  /** `get_codes()`: the rows in fetch order, or `[]` when the store raises an error. */
  function GetCodes(codes: seq<CodeRow>, fault: bool): seq<CodeRow> {
    if fault then [] else codes
  }

  /** The code column of a fetch, as `[c[1] for c in get_codes()]` builds it. */
  function Values(codes: seq<CodeRow>): (vs: seq<string>)
    ensures |vs| == |codes| && forall i :: 0 <= i < |codes| ==> vs[i] == codes[i].code
  {
    seq(|codes|, i requires 0 <= i < |codes| => codes[i].code)
  }

  /** Python's `list.index`: the position of the first occurrence. */
  function IndexOf(values: seq<string>, v: string): (k: nat)
    requires v in values
    ensures k < |values| && values[k] == v
    ensures forall j :: 0 <= j < k ==> values[j] != v
  {
    if values[0] == v then 0 else 1 + IndexOf(values[1..], v)
  }

  lemma TailWellFormed(codes: seq<CodeRow>)
    requires codes != [] && WellFormed(codes)
    ensures WellFormed(codes[1..])
  {
    var tail := codes[1..];
    forall i | 0 <= i < |tail| ensures tail[i] == codes[i + 1] { }
  }

  lemma ConsWellFormed(row: CodeRow, rest: seq<CodeRow>)
    requires WellFormed(rest) && row.id >= 1
    requires forall k :: 0 <= k < |rest| ==> row.id < rest[k].id
    ensures WellFormed([row] + rest)
  {
    var r := [row] + rest;
    forall i, j | 0 <= i < j < |r| ensures r[i].id < r[j].id {
      assert r[j] == rest[j - 1];
      if i > 0 { assert r[i] == rest[i - 1]; }
    }
  }

  lemma {:induction false} DeleteIdWellFormed(codes: seq<CodeRow>, id: int)
    requires WellFormed(codes)
    ensures WellFormed(DeleteId(codes, id))
  {
    if codes != [] {
      var tail := codes[1..];
      TailWellFormed(codes);
      DeleteIdWellFormed(tail, id);
      var rest := DeleteId(tail, id);
      if codes[0].id != id {
        forall k | 0 <= k < |rest| ensures codes[0].id < rest[k].id {
          assert rest[k] in tail;
          var j :| 0 <= j < |tail| && tail[j] == rest[k];
          assert tail[j] == codes[j + 1];
        }
        ConsWellFormed(codes[0], rest);
      }
    }
  }

  lemma {:induction false} DeleteIdDistinct(codes: seq<CodeRow>, id: int)
    requires DistinctCodes(codes)
    ensures DistinctCodes(DeleteId(codes, id))
  {
    if codes != [] {
      DeleteIdDistinct(codes[1..], id);
      var rest := DeleteId(codes[1..], id);
      forall k | 0 <= k < |rest| ensures rest[k].code != codes[0].code {
        assert rest[k] in codes[1..];
      }
    }
  }

  /** Incrementing a usage count keeps ids and codes, hence both table invariants. */
  lemma IncrementIdKeepsInvariants(codes: seq<CodeRow>, id: int)
    ensures WellFormed(codes) ==> WellFormed(IncrementId(codes, id))
    ensures DistinctCodes(codes) ==> DistinctCodes(IncrementId(codes, id))
    ensures forall v :: CodeExists(IncrementId(codes, id), v, false) == CodeExists(codes, v, false)
  {
    var r := IncrementId(codes, id);
    forall v ensures CodeExists(r, v, false) == CodeExists(codes, v, false) {
      if CodeExists(codes, v, false) {
        var i :| 0 <= i < |codes| && codes[i].code == v;
        assert r[i].code == v;
      }
    }
  }
}
