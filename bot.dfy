/**
 * bot.py's command handlers as methods that drive the shared `Store`
 * statement by statement. Each is proved to end in the reply and store
 * contents its `Engine` function describes; the reply stands for the text
 * the handler sends.
 */
module Bot {
  import opened Wrappers
  import opened CodeTable
  import opened Ledger
  import opened Confirm
  import opened Database
  import opened Engine

  /** `/povo_add <code>`. */
  method AddReferralCode(store: Store, user: int, code: string, now: int, down: bool) returns (reply: AddReply)
    requires store.Valid()
    modifies store
    ensures store.Valid()
    ensures (reply, store.Snapshot()) == Submit(old(store.Snapshot()), user, code, now, down)
  {
    if !MatchesCodeRegex(code) {
      return InvalidOrDuplicate;
    }
    if !CanAddCode(store.ledger, user, code, down) {
      return InvalidOrDuplicate;
    }
    if CodeExists(store.codes, code, down) {
      return CodeAlreadyExists;
    }
    store.AddCode(code, down);
    store.LogUserActivity(user, Add, Some(code), now, down);
    reply := CodeAdded;
  }

  /** `/povo_del <code>`, deleting the id at the code's position plus one, as the source does. */
  method DeleteReferralCode(store: Store, code: string, down: bool) returns (reply: DelReply)
    requires store.Valid()
    modifies store
    ensures store.Valid()
    ensures (reply, store.Snapshot()) == RemoveAsWritten(old(store.Snapshot()), code, down)
  {
    var values := Values(GetCodes(store.codes, down));
    if code in values {
      var id := IndexOf(values, code) + 1;
      store.DeleteCode(id, down);
      reply := CodeDeleted;
    } else {
      reply := CodeNotFound;
    }
  }

  /**
   * `/povo`. The source retries by calling itself after deleting an
   * exhausted code; here each retry is one turn of the loop, and the table
   * shrinks on every turn.
   */
  method SendReferralCode(store: Store, user: int, now: int, draws: seq<nat>, down: bool) returns (reply: GetReply)
    requires store.Valid() && |draws| >= |store.codes|
    modifies store
    ensures store.Valid()
    ensures (reply, store.Snapshot()) == Serve(old(store.Snapshot()), user, now, draws, down)
  {
    var k := 0;
    while true
      invariant store.Valid()
      invariant k <= |draws| && |draws| - k >= |store.codes|
      invariant Serve(old(store.Snapshot()), user, now, draws, down)
                == Serve(store.Snapshot(), user, now, draws[k..], down)
      decreases |store.codes|
    {
      if !CanGetCode(store.ledger, user, now, down) {
        return RateLimitExceeded;
      }
      var codes := GetCodes(store.codes, down);
      if codes == [] {
        return NoCodesAvailable;
      }
      var row := codes[draws[k] % |codes|];
      if row.usage < THRESHOLD {
        store.IncrementCodeUsage(row.id, down);
        store.LogUserActivity(user, Get, Some(row.code), now, down);
        return Delivered(row.id, row.code, UsagePayload(row.id, user));
      }
      RetryStep(store.Snapshot(), user, now, draws[k..], down);
      store.DeleteCode(row.id, down);
      assert draws[k..][1..] == draws[k + 1..];
      k := k + 1;
    }
  }

  lemma LinesStep(codes: seq<CodeRow>, i: nat)
    requires i < |codes|
    ensures Lines(codes[..i + 1]) == Lines(codes[..i]) + (RowLine(codes[i]) + "\n")
  {
    assert codes[..i + 1][..i] == codes[..i];
  }

  /** The loop of `list_codes_command`: `response += ...` once per row, in fetch order. */
  method AppendLines(codes: seq<CodeRow>) returns (lines: string)
    ensures lines == Lines(codes)
  {
    lines := "";
    for i := 0 to |codes|
      invariant lines == Lines(codes[..i])
    {
      LinesStep(codes, i);
      lines := lines + (RowLine(codes[i]) + "\n");
    }
    assert codes[..|codes|] == codes;
  }

  /** `/list`: the fixed "no codes" text, or the header followed by one line per row. */
  method ListCodes(store: Store, down: bool) returns (text: string)
    ensures text == Listing(store.codes, down)
  {
    var codes := GetCodes(store.codes, down);
    if codes == [] {
      return NO_CODES_LISTED;
    }
    var lines := AppendLines(codes);
    text := LIST_HEADER + "\n" + lines;
  }
}
