/**
 * The decisions of bot.py's command handlers, with the chat transport taken
 * away: each handler is a function from the store contents (and the
 * command's argument, the clock and the random draws) to the reply tag and
 * the new store contents. `down` says that every statement the handler sends
 * to the store raises `sqlite3.Error`.
 */
module Engine {
  import opened Wrappers
  import opened CodeTable
  import opened Ledger
  import opened Text
  import opened Confirm
  import opened Database

  // ----- CODE_REGEX = r'^[a-zA-Z0-9]+$' -----

  predicate IsAsciiAlnum(c: char) {
    'a' <= c <= 'z' || 'A' <= c <= 'Z' || '0' <= c <= '9'
  }

  /** One or more ASCII letters and digits, nothing else. */
  predicate IsAlnumWord(s: string) {
    |s| >= 1 && forall i :: 0 <= i < |s| ==> IsAsciiAlnum(s[i])
  }

  /** Length of the longest prefix of letters and digits: what the greedy `[a-zA-Z0-9]+` consumes. */
  function AlnumRun(s: string): (n: nat)
    ensures n <= |s|
    ensures forall i :: 0 <= i < n ==> IsAsciiAlnum(s[i])
    ensures n < |s| ==> !IsAsciiAlnum(s[n])
  {
    if s == [] || !IsAsciiAlnum(s[0]) then 0 else 1 + AlnumRun(s[1..])
  }

  /**
   * `re.match(CODE_REGEX, s)`: the greedy run must be non-empty and be
   * followed by Python's `$`, which holds at the end of the string and just
   * before a final newline. Backtracking to a shorter run never helps, since
   * the character after it is a letter or digit.
   */
  predicate MatchesCodeRegex(s: string) {
    var n := AlnumRun(s);
    n >= 1 && (n == |s| || (n == |s| - 1 && s[n] == '\n'))
  }

  /** The pattern admits exactly the alphanumeric words, and those words followed by one newline. */
  lemma CodeRegexMeaning(s: string)
    ensures MatchesCodeRegex(s) <==>
              IsAlnumWord(s) || (|s| >= 2 && s[|s| - 1] == '\n' && IsAlnumWord(s[..|s| - 1]))
  {
    var n := AlnumRun(s);
    if |s| >= 2 && s[|s| - 1] == '\n' && IsAlnumWord(s[..|s| - 1]) {
      assert forall i :: 0 <= i < |s| - 1 ==> s[i] == s[..|s| - 1][i];
    }
    if MatchesCodeRegex(s) && n == |s| - 1 {
      var w := s[..|s| - 1];
      assert forall i :: 0 <= i < |w| ==> w[i] == s[i];
    }
  }

  lemma CodeRegexExamples()
    ensures MatchesCodeRegex("abc123")
    ensures !MatchesCodeRegex("ab-12")
    ensures !MatchesCodeRegex("")
    ensures MatchesCodeRegex("abc\n")
  {
    CodeRegexMeaning("abc123");
    CodeRegexMeaning("ab-12");
    assert !IsAsciiAlnum("ab-12"[2]);
    CodeRegexMeaning("abc\n");
    assert "abc\n"[..3] == "abc";
  }

  // ----- /povo_add -----

  datatype AddReply = CodeAdded | CodeAlreadyExists | InvalidOrDuplicate

  /** `add_referral_code_command`: format, then eligibility, then existence, then insert and log. */
  function Submit(db: Db, user: int, code: string, now: int, down: bool): (AddReply, Db) {
    if !MatchesCodeRegex(code) then (InvalidOrDuplicate, db)
    else if !CanAddCode(db.ledger, user, code, down) then (InvalidOrDuplicate, db)
    else if CodeExists(db.codes, code, down) then (CodeAlreadyExists, db)
    else (CodeAdded, Db(Insert(db.codes, code), db.ledger + [Activity(user, Add, Some(code), now)]))
  }

  /**
   * A malformed code is refused whatever the store holds, with the same
   * reply as a repeat add; "already exists" is reported only to an eligible
   * user with a well-formed code; every refusal leaves both tables alone.
   */
  lemma SubmitCheckOrder(db: Db, user: int, code: string, now: int, down: bool)
    ensures !MatchesCodeRegex(code) ==> Submit(db, user, code, now, down) == (InvalidOrDuplicate, db)
    ensures !CanAddCode(db.ledger, user, code, down) ==> Submit(db, user, code, now, down) == (InvalidOrDuplicate, db)
    ensures Submit(db, user, code, now, down).0 == CodeAlreadyExists <==>
              MatchesCodeRegex(code) && CanAddCode(db.ledger, user, code, down) && CodeExists(db.codes, code, down)
    ensures Submit(db, user, code, now, down).0 != CodeAdded ==> Submit(db, user, code, now, down).1 == db
    ensures down ==> Submit(db, user, code, now, down) == (InvalidOrDuplicate, db)
  {
  }

  /**
   * A code is accepted exactly when it is well formed, the store answers,
   * the user never added it and no live row holds it; then one row with
   * that code, usage 0 and a fresh id is appended, one add record is
   * logged, the code exists and the same user may not add it again.
   */
  lemma SubmitAccepted(db: Db, user: int, code: string, now: int, down: bool)
    ensures var (reply, after) := Submit(db, user, code, now, down);
      && (reply == CodeAdded <==>
            && MatchesCodeRegex(code) && !down
            && (forall i :: 0 <= i < |db.ledger| ==> !AddedBy(db.ledger[i], user, code))
            && (forall i :: 0 <= i < |db.codes| ==> db.codes[i].code != code))
      && (reply == CodeAdded ==>
            && |after.codes| == |db.codes| + 1
            && after.codes[..|db.codes|] == db.codes
            && after.codes[|db.codes|].code == code
            && after.codes[|db.codes|].usage == 0
            && !HasId(db.codes, after.codes[|db.codes|].id)
            && after.ledger == db.ledger + [Activity(user, Add, Some(code), now)]
            && CodeExists(after.codes, code, false)
            && !CanAddCode(after.ledger, user, code, false))
  {
    var (reply, after) := Submit(db, user, code, now, down);
    if reply == CodeAdded {
      assert after.codes[|db.codes|].code == code;
      assert AddedBy(after.ledger[|db.ledger|], user, code);
    }
  }

  /**
   * After an accepted add, the same user adding the same code again is
   * refused, whatever happened to the codes table since (the code may have
   * been deleted) and whatever was logged after it.
   */
  lemma RepeatAddRefused(db: Db, user: int, code: string, now: int, down: bool,
                         later: Db, now2: int, down2: bool)
    requires Submit(db, user, code, now, down).0 == CodeAdded
    requires Submit(db, user, code, now, down).1.ledger <= later.ledger
    ensures Submit(later, user, code, now2, down2) == (InvalidOrDuplicate, later)
  {
    var after := Submit(db, user, code, now, down).1;
    SubmitAccepted(db, user, code, now, down);
    assert later.ledger == after.ledger + later.ledger[|after.ledger|..];
    AddRefusalIsPermanent(after.ledger, later.ledger[|after.ledger|..], user, code);
  }

  /** Accepting a code keeps ids ascending and, since it checked first, keeps code values distinct. */
  lemma SubmitKeepsTableInvariants(db: Db, user: int, code: string, now: int, down: bool)
    requires WellFormed(db.codes) && DistinctCodes(db.codes)
    ensures WellFormed(Submit(db, user, code, now, down).1.codes)
    ensures DistinctCodes(Submit(db, user, code, now, down).1.codes)
    ensures db.ledger <= Submit(db, user, code, now, down).1.ledger
  {
    var (reply, after) := Submit(db, user, code, now, down);
    if reply == CodeAdded {
      forall i, j | 0 <= i < j < |after.codes| ensures after.codes[i].code != after.codes[j].code {
        if j == |db.codes| {
          assert after.codes[i] == db.codes[i];
        } else {
          assert after.codes[i] == db.codes[i] && after.codes[j] == db.codes[j];
        }
      }
    }
  }

  // ----- /povo -----

  datatype GetReply =
    | Delivered(codeId: int, code: string, button: string)
    | NoCodesAvailable
    | RateLimitExceeded

  /**
   * `send_referral_code`. The k-th attempt picks row `draws[k] % |codes|`,
   * standing for `choice(codes)`; an exhausted pick is deleted and the
   * handler starts over, eligibility check included.
   */
  function Serve(db: Db, user: int, now: int, draws: seq<nat>, down: bool): (GetReply, Db)
    requires |draws| >= |db.codes|
    decreases |db.codes|
  {
    if !CanGetCode(db.ledger, user, now, down) then (RateLimitExceeded, db)
    else
      var codes := GetCodes(db.codes, down);
      if codes == [] then (NoCodesAvailable, db)
      else
        var k := draws[0] % |codes|;
        var row := codes[k];
        if row.usage < THRESHOLD then
          (Delivered(row.id, row.code, UsagePayload(row.id, user)),
           Db(IncrementId(db.codes, row.id), db.ledger + [Activity(user, Get, Some(row.code), now)]))
        else
          assert HasId(db.codes, row.id) by { assert db.codes[k].id == row.id; }
          Serve(Db(DeleteId(db.codes, row.id), db.ledger), user, now, draws[1..], down)
  }

  /** The row the first attempt picks. */
  function Pick(codes: seq<CodeRow>, draws: seq<nat>): (row: CodeRow)
    requires |draws| >= |codes| > 0
    ensures row in codes
  {
    codes[draws[0] % |codes|]
  }

  /** An exhausted pick: the handler deletes it and answers as it would for the smaller table. */
  lemma RetryStep(db: Db, user: int, now: int, draws: seq<nat>, down: bool)
    requires |draws| >= |db.codes| > 0 && CanGetCode(db.ledger, user, now, down)
    requires Pick(db.codes, draws).usage >= THRESHOLD
    ensures var rest := Db(DeleteId(db.codes, Pick(db.codes, draws).id), db.ledger);
      && |rest.codes| < |db.codes|
      && Serve(db, user, now, draws, down) == Serve(rest, user, now, draws[1..], down)
  {
    var k := draws[0] % |db.codes|;
    assert db.codes[k].id == Pick(db.codes, draws).id;
  }

  /** A rate-limited user, or an empty table, gets a reply and changes nothing. */
  lemma ServeNoChangeWhenLimitedOrEmpty(db: Db, user: int, now: int, draws: seq<nat>, down: bool)
    requires |draws| >= |db.codes|
    ensures !CanGetCode(db.ledger, user, now, down) ==> Serve(db, user, now, draws, down) == (RateLimitExceeded, db)
    ensures CanGetCode(db.ledger, user, now, down) && db.codes == [] ==>
              Serve(db, user, now, draws, down) == (NoCodesAvailable, db)
    ensures down ==> Serve(db, user, now, draws, down) == (RateLimitExceeded, db)
  {
  }

  /**
   * Retries never turn into a rate-limit reply; a delivery logs exactly one
   * get record for the user and carries the usage button for that code and
   * user; any other outcome logs nothing.
   */
  lemma {:induction false} ServeLedger(db: Db, user: int, now: int, draws: seq<nat>, down: bool)
    requires |draws| >= |db.codes|
    ensures var (reply, after) := Serve(db, user, now, draws, down);
      && (reply == RateLimitExceeded <==> !CanGetCode(db.ledger, user, now, down))
      && (reply.Delivered? ==>
            && after.ledger == db.ledger + [Activity(user, Get, Some(reply.code), now)]
            && reply.button == UsagePayload(reply.codeId, user))
      && (!reply.Delivered? ==> after.ledger == db.ledger)
    decreases |db.codes|
  {
    if CanGetCode(db.ledger, user, now, down) && db.codes != [] {
      var row := Pick(db.codes, draws);
      if row.usage >= THRESHOLD {
        RetryStep(db, user, now, draws, down);
        ServeLedger(Db(DeleteId(db.codes, row.id), db.ledger), user, now, draws[1..], down);
      }
    }
  }

  lemma UniqueIds(codes: seq<CodeRow>, a: CodeRow, b: CodeRow)
    requires WellFormed(codes) && a in codes && b in codes && a.id == b.id
    ensures a == b
  {
    var i :| 0 <= i < |codes| && codes[i] == a;
    var j :| 0 <= j < |codes| && codes[j] == b;
    assert i == j;
  }

  /**
   * A delivered code was live, below the threshold, when it was picked,
   * and afterwards its row holds exactly one more use.
   */
  lemma {:induction false} ServeDelivered(db: Db, user: int, now: int, draws: seq<nat>, down: bool)
    requires |draws| >= |db.codes|
    ensures var (reply, after) := Serve(db, user, now, draws, down);
      reply.Delivered? ==>
        exists q :: q in db.codes && q.id == reply.codeId && q.code == reply.code && q.usage < THRESHOLD
                    && q.(usage := q.usage + 1) in after.codes
    decreases |db.codes|
  {
    if CanGetCode(db.ledger, user, now, down) && db.codes != [] {
      var row := Pick(db.codes, draws);
      if row.usage < THRESHOLD {
        var k := draws[0] % |db.codes|;
        assert IncrementId(db.codes, row.id)[k] == row.(usage := row.usage + 1);
      } else {
        var rest := Db(DeleteId(db.codes, row.id), db.ledger);
        RetryStep(db, user, now, draws, down);
        ServeDelivered(rest, user, now, draws[1..], down);
      }
    }
  }

  /** Every row that `/povo` removes had reached the threshold, except the delivered row, which is replaced. */
  lemma {:induction false} ServeRetiresOnlyExhausted(db: Db, user: int, now: int, draws: seq<nat>, down: bool)
    requires |draws| >= |db.codes| && WellFormed(db.codes)
    ensures var (reply, after) := Serve(db, user, now, draws, down);
      forall r :: r in db.codes && r !in after.codes ==>
        r.usage >= THRESHOLD || (reply.Delivered? && r.id == reply.codeId)
    decreases |db.codes|
  {
    var (reply, after) := Serve(db, user, now, draws, down);
    if CanGetCode(db.ledger, user, now, down) && db.codes != [] {
      var row := Pick(db.codes, draws);
      if row.usage < THRESHOLD {
        forall r | r in db.codes && r !in after.codes ensures r.id == row.id {
          var i :| 0 <= i < |db.codes| && db.codes[i] == r;

        }
      } else {
        var rest := Db(DeleteId(db.codes, row.id), db.ledger);
        RetryStep(db, user, now, draws, down);
        DeleteIdWellFormed(db.codes, row.id);
        ServeRetiresOnlyExhausted(rest, user, now, draws[1..], down);
        forall r | r in db.codes && r !in after.codes
          ensures r.usage >= THRESHOLD || (reply.Delivered? && r.id == reply.codeId)
        {
          if r !in rest.codes { UniqueIds(db.codes, r, row); }
        }
      }
    }
  }

  /** `/povo` adds no row: each row afterwards was there before, or is the delivered row with one more use. */
  lemma {:induction false} ServeAddsNoRows(db: Db, user: int, now: int, draws: seq<nat>, down: bool)
    requires |draws| >= |db.codes|
    ensures var (reply, after) := Serve(db, user, now, draws, down);
      forall r :: r in after.codes ==>
        || r in db.codes
        || (&& reply.Delivered? && r.id == reply.codeId
            && exists q :: q in db.codes && r == q.(usage := q.usage + 1))
    decreases |db.codes|
  {
    var (reply, after) := Serve(db, user, now, draws, down);
    if CanGetCode(db.ledger, user, now, down) && db.codes != [] {
      var row := Pick(db.codes, draws);
      if row.usage < THRESHOLD {
        forall r | r in after.codes
          ensures r in db.codes || (r.id == row.id && exists q :: q in db.codes && r == q.(usage := q.usage + 1))
        {
          var i :| 0 <= i < |after.codes| && after.codes[i] == r;
          if db.codes[i].id == row.id {
            assert r == db.codes[i].(usage := db.codes[i].usage + 1);
          } else {
            assert r == db.codes[i];
          }
        }
      } else {
        var rest := Db(DeleteId(db.codes, row.id), db.ledger);
        RetryStep(db, user, now, draws, down);
        ServeAddsNoRows(rest, user, now, draws[1..], down);
      }
    }
  }

  /** `/povo` keeps ids ascending and code values distinct. */
  lemma {:induction false} ServeKeepsTableInvariants(db: Db, user: int, now: int, draws: seq<nat>, down: bool)
    requires |draws| >= |db.codes| && WellFormed(db.codes)
    ensures WellFormed(Serve(db, user, now, draws, down).1.codes)
    ensures DistinctCodes(db.codes) ==> DistinctCodes(Serve(db, user, now, draws, down).1.codes)
    ensures db.ledger <= Serve(db, user, now, draws, down).1.ledger
    decreases |db.codes|
  {
    ServeLedger(db, user, now, draws, down);
    if CanGetCode(db.ledger, user, now, down) && db.codes != [] {
      var row := Pick(db.codes, draws);
      if row.usage < THRESHOLD {
        IncrementIdKeepsInvariants(db.codes, row.id);
      } else {
        var rest := Db(DeleteId(db.codes, row.id), db.ledger);
        RetryStep(db, user, now, draws, down);
        DeleteIdWellFormed(db.codes, row.id);
        if DistinctCodes(db.codes) { DeleteIdDistinct(db.codes, row.id); }
        ServeKeepsTableInvariants(rest, user, now, draws[1..], down);
      }
    }
  }

  lemma {:induction false} ServeEmptyTable(db: Db, user: int, now: int, draws: seq<nat>, down: bool)
    requires |draws| >= |db.codes|
    ensures Serve(db, user, now, draws, down).0 == NoCodesAvailable ==> Serve(db, user, now, draws, down).1.codes == []
    decreases |db.codes|
  {
    if CanGetCode(db.ledger, user, now, down) && db.codes != [] {
      var row := Pick(db.codes, draws);
      if row.usage >= THRESHOLD {
        RetryStep(db, user, now, draws, down);
        ServeEmptyTable(Db(DeleteId(db.codes, row.id), db.ledger), user, now, draws[1..], down);
      }
    }
  }

  /**
   * "No codes" after the eligibility check means every live code had
   * reached the threshold and all of them were retired; while any code
   * below the threshold is live, an eligible user is served.
   */
  lemma ServeEmptyOnlyWhenExhausted(db: Db, user: int, now: int, draws: seq<nat>, down: bool)
    requires |draws| >= |db.codes| && WellFormed(db.codes)
    ensures var (reply, after) := Serve(db, user, now, draws, down);
      reply == NoCodesAvailable ==>
        after.codes == [] && forall i :: 0 <= i < |db.codes| ==> db.codes[i].usage >= THRESHOLD
    ensures CanGetCode(db.ledger, user, now, down)
            && (exists i :: 0 <= i < |db.codes| && db.codes[i].usage < THRESHOLD)
            ==> Serve(db, user, now, draws, down).0.Delivered?
  {
    ServeRetiresOnlyExhausted(db, user, now, draws, down);
    ServeLedger(db, user, now, draws, down);
    ServeEmptyTable(db, user, now, draws, down);
    var (reply, after) := Serve(db, user, now, draws, down);
    if reply == NoCodesAvailable {
      forall i | 0 <= i < |db.codes| ensures db.codes[i].usage >= THRESHOLD {
        assert db.codes[i] in db.codes;
      }
    }
  }

  lemma SharedPrefixTail(draws: seq<nat>, draws2: seq<nat>, n: nat, m: nat)
    requires m < n <= |draws| && n <= |draws2| && draws[..n] == draws2[..n]
    ensures draws[0] == draws2[0]
    ensures draws[1..][..m] == draws2[1..][..m]
  {
    assert draws[0] == draws[..n][0] && draws2[0] == draws2[..n][0];
    forall i | 0 <= i < m ensures draws[1..][..m][i] == draws2[1..][..m][i] {
      assert draws[1..][..m][i] == draws[..n][i + 1];
      assert draws2[1..][..m][i] == draws2[..n][i + 1];
    }
  }

  /**
   * The retry loop takes at most one draw per live row: draws past the
   * first `|codes|` are never looked at, so the recursion is at most
   * `|codes|` deep.
   */
  lemma {:induction false} ServeDrawsBounded(db: Db, user: int, now: int, draws: seq<nat>, draws2: seq<nat>, down: bool)
    requires |draws| >= |db.codes| && |draws2| >= |db.codes|
    requires draws[..|db.codes|] == draws2[..|db.codes|]
    ensures Serve(db, user, now, draws, down) == Serve(db, user, now, draws2, down)
    decreases |db.codes|
  {
    if CanGetCode(db.ledger, user, now, down) && db.codes != [] {
      SharedPrefixTail(draws, draws2, |db.codes|, 0);
      var row := Pick(db.codes, draws);
      if row.usage >= THRESHOLD {
        var rest := Db(DeleteId(db.codes, row.id), db.ledger);
        RetryStep(db, user, now, draws, down);
        RetryStep(db, user, now, draws2, down);
        SharedPrefixTail(draws, draws2, |db.codes|, |rest.codes|);
        ServeDrawsBounded(rest, user, now, draws[1..], draws2[1..], down);
      }
    }
  }

  /**
   * Two requests by one user less than an hour apart: if the first
   * delivered a code, the second is rate-limited and changes nothing,
   * whatever else happened in between.
   */
  lemma SecondRequestWithinHourLimited(db: Db, user: int, now: int, draws: seq<nat>, down: bool,
                                       later: Db, now2: int, draws2: seq<nat>, down2: bool)
    requires |draws| >= |db.codes| && |draws2| >= |later.codes|
    requires Serve(db, user, now, draws, down).0.Delivered?
    requires Serve(db, user, now, draws, down).1.ledger <= later.ledger
    requires now2 < now + WINDOW
    ensures Serve(later, user, now2, draws2, down2) == (RateLimitExceeded, later)
  {
    ServeLedger(db, user, now, draws, down);
    var after := Serve(db, user, now, draws, down).1;
    assert RecentGetBy(later.ledger[|db.ledger|], user, now2) by {
      assert later.ledger[|db.ledger|] == after.ledger[|db.ledger|];
    }
  }

  // ----- /povo_del -----

  datatype DelReply = CodeDeleted | CodeNotFound

  /**
   * `delete_referral_code_command` as written: the id deleted is the
   * code's position in the fetched list plus one.
   */
  function RemoveAsWritten(db: Db, code: string, down: bool): (DelReply, Db) {
    var values := Values(GetCodes(db.codes, down));
    if code in values then (CodeDeleted, Db(DeleteId(db.codes, IndexOf(values, code) + 1), db.ledger))
    else (CodeNotFound, db)
  }

  /** The intended `/povo_del`: delete the row found, by its own id. */
  function RemoveCode(db: Db, code: string, down: bool): (DelReply, Db) {
    var fetched := GetCodes(db.codes, down);
    var values := Values(fetched);
    if code in values then (CodeDeleted, Db(DeleteId(db.codes, fetched[IndexOf(values, code)].id), db.ledger))
    else (CodeNotFound, db)
  }

  /**
   * The corrected removal reports success exactly when the code is live,
   * removes precisely the rows holding it (the one row, as values are
   * distinct) and keeps every other row; an unknown code changes nothing.
   */
  lemma RemoveCodeDeletesTheMatch(db: Db, code: string, down: bool)
    requires WellFormed(db.codes) && DistinctCodes(db.codes)
    ensures var (reply, after) := RemoveCode(db, code, down);
      && (reply == CodeDeleted <==> CodeExists(db.codes, code, down))
      && after.ledger == db.ledger
      && (reply == CodeDeleted ==> forall r :: r in after.codes <==> r in db.codes && r.code != code)
      && (reply == CodeDeleted ==> !CodeExists(after.codes, code, false))
      && (reply == CodeNotFound ==> after == db)
      && WellFormed(after.codes) && DistinctCodes(after.codes)
  {
    var (reply, after) := RemoveCode(db, code, down);
    if reply == CodeDeleted {
      var k := IndexOf(Values(db.codes), code);
      DeleteIdWellFormed(db.codes, db.codes[k].id);
      DeleteIdDistinct(db.codes, db.codes[k].id);
      SameCodeSameId(db.codes, k);
    }
  }

  /** In a well-formed table with distinct codes, a row's code and its id pick out the same row. */
  lemma SameCodeSameId(codes: seq<CodeRow>, k: int)
    requires WellFormed(codes) && DistinctCodes(codes) && 0 <= k < |codes|
    ensures forall r :: r in codes ==> (r.code == codes[k].code <==> r.id == codes[k].id)
  {
    forall r | r in codes ensures r.code == codes[k].code <==> r.id == codes[k].id {
      if r.id == codes[k].id { UniqueIds(codes, r, codes[k]); }
    }
  }

  /** When the ids are exactly 1..n in fetch order, the positional lookup is right. */
  lemma RemoveAsWrittenDenseIds(db: Db, code: string, down: bool)
    requires forall i :: 0 <= i < |db.codes| ==> db.codes[i].id == i + 1
    ensures RemoveAsWritten(db, code, down) == RemoveCode(db, code, down)
  {
  }

  /** An unknown code, or a store that fails, leaves the table alone. */
  lemma RemoveAsWrittenUnknownNoOp(db: Db, code: string, down: bool)
    requires !CodeExists(db.codes, code, down)
    ensures RemoveAsWritten(db, code, down) == (CodeNotFound, db)
  {
  }

  /**
   * With a gap in the ids the positional lookup goes wrong: deleting "c"
   * from rows 2 and 3 removes "b", and deleting "b" from a lone row 2
   * removes nothing, though both report success; the corrected removal
   * deletes "c" itself.
   */
  lemma RemoveAsWrittenGapCounterexample()
    ensures var db := Db([CodeRow(2, "b", 0), CodeRow(3, "c", 0)], []);
      && WellFormed(db.codes) && DistinctCodes(db.codes)
      && RemoveAsWritten(db, "c", false) == (CodeDeleted, Db([CodeRow(3, "c", 0)], []))
      && RemoveCode(db, "c", false) == (CodeDeleted, Db([CodeRow(2, "b", 0)], []))
    ensures var db := Db([CodeRow(2, "b", 0)], []);
      RemoveAsWritten(db, "b", false) == (CodeDeleted, db)
  {
    var rows := [CodeRow(2, "b", 0), CodeRow(3, "c", 0)];
    assert Values(rows) == ["b", "c"];
    assert IndexOf(["b", "c"], "c") == 1;
    assert DeleteId(rows, 2) == [CodeRow(3, "c", 0)] by {
      assert DeleteId(rows[1..], 2) == [CodeRow(3, "c", 0)];
    }
    assert DeleteId(rows, 3) == [CodeRow(2, "b", 0)] by {
      assert rows[1..] == [CodeRow(3, "c", 0)];
      assert DeleteId(rows[1..], 3) == [];
    }
    var one := [CodeRow(2, "b", 0)];
    assert Values(one) == ["b"];
    assert !HasId(one, 1);
  }

  /** An accepted add on a working store, written out. */
  lemma SubmitFresh(db: Db, user: int, code: string, now: int)
    requires MatchesCodeRegex(code)
    requires forall i :: 0 <= i < |db.ledger| ==> !AddedBy(db.ledger[i], user, code)
    requires forall i :: 0 <= i < |db.codes| ==> db.codes[i].code != code
    ensures Submit(db, user, code, now, false)
            == (CodeAdded, Db(db.codes + [CodeRow(NextId(db.codes), code, 0)], db.ledger + [Activity(user, Add, Some(code), now)]))
  {
  }

  lemma AddFirst(user: int, now: int)
    ensures Submit(Db([], []), user, "a", now, false).1
            == Db([CodeRow(1, "a", 0)], [Activity(user, Add, Some("a"), now)])
  {
    CodeRegexMeaning("a");
    SubmitFresh(Db([], []), user, "a", now);
  }

  lemma AddSecond(user: int, now: int)
    ensures var db1 := Db([CodeRow(1, "a", 0)], [Activity(user, Add, Some("a"), now)]);
      Submit(db1, user, "b", now, false).1
        == Db([CodeRow(1, "a", 0), CodeRow(2, "b", 0)], db1.ledger + [Activity(user, Add, Some("b"), now)])
  {
    var a1 := Activity(user, Add, Some("a"), now);
    CodeRegexMeaning("b");
    assert !AddedBy(a1, user, "b");
    SubmitFresh(Db([CodeRow(1, "a", 0)], [a1]), user, "b", now);
  }

  lemma AddThird(db2: Db, user: int, now: int)
    requires db2.codes == [CodeRow(1, "a", 0), CodeRow(2, "b", 0)]
    requires forall i :: 0 <= i < |db2.ledger| ==> db2.ledger[i].code != Some("c")
    ensures Submit(db2, user, "c", now, false).1.codes == [CodeRow(1, "a", 0), CodeRow(2, "b", 0), CodeRow(3, "c", 0)]
  {
    CodeRegexMeaning("c");
    SubmitFresh(db2, user, "c", now);
    assert NextId(db2.codes) == 3 by { assert db2.codes[..1] == [CodeRow(1, "a", 0)]; }
  }

  lemma RemoveFirstOfThree(db: Db)
    requires db.codes == [CodeRow(1, "a", 0), CodeRow(2, "b", 0), CodeRow(3, "c", 0)]
    ensures RemoveAsWritten(db, "a", false).1 == Db([CodeRow(2, "b", 0), CodeRow(3, "c", 0)], db.ledger)
  {
    var rows := db.codes;
    assert Values(rows) == ["a", "b", "c"];
    assert DeleteId(rows, 1) == rows[1..] by {
      assert !HasId(rows[1..], 1);
    }
  }

  /**
   * The gap arises through the handlers alone: one user adds "a", "b" and
   * "c" (ids 1, 2, 3) and deletes "a"; deleting "c" then removes "b".
   */
  lemma GapReachableByHandlers(user: int, now: int)
    ensures var db1 := Submit(Db([], []), user, "a", now, false).1;
      var db2 := Submit(db1, user, "b", now, false).1;
      var db3 := Submit(db2, user, "c", now, false).1;
      var db4 := RemoveAsWritten(db3, "a", false).1;
      && db4.codes == [CodeRow(2, "b", 0), CodeRow(3, "c", 0)]
      && RemoveAsWritten(db4, "c", false).1.codes == [CodeRow(3, "c", 0)]
  {
    var db1 := Submit(Db([], []), user, "a", now, false).1;
    AddFirst(user, now);
    var db2 := Submit(db1, user, "b", now, false).1;
    AddSecond(user, now);
    assert db2.ledger == [Activity(user, Add, Some("a"), now), Activity(user, Add, Some("b"), now)];
    var db3 := Submit(db2, user, "c", now, false).1;
    AddThird(db2, user, now);
    RemoveFirstOfThree(db3);
    var db4 := RemoveAsWritten(db3, "a", false).1;
    RemoveAsWrittenGapCounterexample();
    assert db4 == Db([CodeRow(2, "b", 0), CodeRow(3, "c", 0)], db3.ledger);
    assert RemoveAsWritten(db4, "c", false).1.codes
        == RemoveAsWritten(Db(db4.codes, []), "c", false).1.codes;
  }

  // ----- /list -----

  const LIST_HEADER: string := "Here are all the referral codes:"
  const NO_CODES_LISTED: string := "No referral codes in the database."

  /** `f"ID: {code[0]}, Code: {code[1]}, Usage count: {code[2]}"`, without its newline. */
  function RowLine(r: CodeRow): string {
    "ID: " + IntToString(r.id) + ", Code: " + r.code + ", Usage count: " + IntToString(r.usage)
  }

  /** The lines the loop of `list_codes_command` appends, one per row, each ending in a newline. */
  function Lines(codes: seq<CodeRow>): string {
    if codes == [] then "" else Lines(codes[..|codes| - 1]) + RowLine(codes[|codes| - 1]) + "\n"
  }

  /** The text `/list` sends. */
  function Listing(codes: seq<CodeRow>, down: bool): string {
    var fetched := GetCodes(codes, down);
    if fetched == [] then NO_CODES_LISTED else LIST_HEADER + "\n" + Lines(fetched)
  }

  function RowLines(codes: seq<CodeRow>): (ls: seq<string>)
    ensures |ls| == |codes| && forall i :: 0 <= i < |codes| ==> ls[i] == RowLine(codes[i])
  {
    seq(|codes|, i requires 0 <= i < |codes| => RowLine(codes[i]))
  }

  lemma RowLinesSnoc(codes: seq<CodeRow>)
    requires codes != []
    ensures RowLines(codes) == RowLines(codes[..|codes| - 1]) + [RowLine(codes[|codes| - 1])]
  {
  }

  /** Appending one line to both sides of `head + "\n" + tail == joined + "\n"`. */
  lemma AppendLine(head: string, tail: string, line: string, joined: string)
    requires head + "\n" + tail == joined + "\n"
    ensures head + "\n" + (tail + line + "\n") == (joined + ['\n'] + line) + "\n"
  {
    calc {
      head + "\n" + (tail + line + "\n");
      (head + "\n" + tail) + line + "\n";
      (joined + "\n") + line + "\n";
      (joined + ['\n'] + line) + "\n";
    }
  }

  /** A head line followed by the row lines is the newline-join of the pieces, plus a final newline. */
  lemma {:induction false} LinesAsJoin(head: string, codes: seq<CodeRow>)
    ensures head + "\n" + Lines(codes) == Join([head] + RowLines(codes), '\n') + "\n"
  {
    if codes != [] {
      var init := codes[..|codes| - 1];
      var line := RowLine(codes[|codes| - 1]);
      var before := [head] + RowLines(init);
      LinesAsJoin(head, init);
      AppendLine(head, Lines(init), line, Join(before, '\n'));
      RowLinesSnoc(codes);
      assert [head] + RowLines(codes) == before + [line];
      JoinSnoc(before, line, '\n');
    }
  }

  lemma NoNewlineInRowLine(r: CodeRow)
    requires '\n' !in r.code
    ensures '\n' !in RowLine(r)
  {
    var a, b := IntToString(r.id), IntToString(r.usage);
    assert '\n' !in a && '\n' !in b;
  }

  /** The pieces of a listing, in the order the text holds them. */
  function ListingPieces(codes: seq<CodeRow>): seq<string> {
    [LIST_HEADER] + RowLines(codes) + [""]
  }

  lemma ListingAsJoin(codes: seq<CodeRow>)
    requires codes != []
    ensures Listing(codes, false) == Join(ListingPieces(codes), '\n')
  {
    assert Listing(codes, false) == LIST_HEADER + "\n" + Lines(codes);
    LinesAsJoin(LIST_HEADER, codes);
    JoinSnoc([LIST_HEADER] + RowLines(codes), "", '\n');
  }

  lemma RowLinesHaveNoNewline(codes: seq<CodeRow>)
    requires forall i :: 0 <= i < |codes| ==> '\n' !in codes[i].code
    ensures forall i :: 0 <= i < |codes| ==> '\n' !in RowLines(codes)[i]
  {
    forall i | 0 <= i < |codes| ensures '\n' !in RowLines(codes)[i] {
      NoNewlineInRowLine(codes[i]);
    }
  }

  lemma ListingPiecesHaveNoNewline(codes: seq<CodeRow>)
    requires forall i :: 0 <= i < |codes| ==> '\n' !in codes[i].code
    ensures forall i :: 0 <= i < |ListingPieces(codes)| ==> '\n' !in ListingPieces(codes)[i]
  {
    var lines := RowLines(codes);
    RowLinesHaveNoNewline(codes);
    assert '\n' !in LIST_HEADER by {
      forall j | 0 <= j < |LIST_HEADER| ensures LIST_HEADER[j] != '\n' {}
    }
    forall i | 0 <= i < |codes| + 2 ensures '\n' !in ListingPieces(codes)[i] {
      if 1 <= i <= |codes| {
        assert ListingPieces(codes)[i] == lines[i - 1];
      }
    }
  }

  /**
   * The listing reads back line by line: splitting it at newlines gives
   * the header, then one line per row in fetch order, then the empty piece
   * after the final newline (for codes without a newline in them).
   */
  lemma ListingReadsBack(codes: seq<CodeRow>)
    requires codes != []
    requires forall i :: 0 <= i < |codes| ==> '\n' !in codes[i].code
    ensures Split(Listing(codes, false), '\n') == [LIST_HEADER] + RowLines(codes) + [""]
  {
    ListingAsJoin(codes);
    ListingPiecesHaveNoNewline(codes);
    SplitJoin(ListingPieces(codes), '\n');
  }

  /** A code ending in a newline passes the format check (Python's `$`) and is stored. */
  lemma NewlineCodeAccepted(user: int, now: int)
    ensures Submit(Db([], []), user, "abc\n", now, false).0 == CodeAdded
  {
    CodeRegexExamples();
  }

  /**
   * A stored code holding a newline breaks its `/list` line in two: that
   * row's line is never one of the lines the listing reads back as.
   */
  lemma NewlineCodeSplitsItsLine(codes: seq<CodeRow>, i: int)
    requires 0 <= i < |codes| && '\n' in codes[i].code
    ensures RowLine(codes[i]) !in Split(Listing(codes, false), '\n')
  {
    var r := codes[i];
    var k :| 0 <= k < |r.code| && r.code[k] == '\n';
    var pre := "ID: " + IntToString(r.id) + ", Code: ";
    assert RowLine(r) == pre + r.code + ", Usage count: " + IntToString(r.usage);
    assert RowLine(r)[|pre| + k] == '\n';
  }

  /** `/list` on an empty table, or a failing store, sends the fixed "no codes" text. */
  lemma ListingFailsClosed(codes: seq<CodeRow>, down: bool)
    ensures (down || codes == []) ==> Listing(codes, down) == NO_CODES_LISTED
    ensures !down && codes != [] ==> Listing(codes, down) != NO_CODES_LISTED
  {
    if !down && codes != [] {
      assert Listing(codes, down)[..|LIST_HEADER|] == LIST_HEADER;
      assert LIST_HEADER[0] != NO_CODES_LISTED[0];
    }
  }
}
