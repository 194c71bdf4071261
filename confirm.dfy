/**
 * The "mark as used" confirmation of bot.py. No table holds its state: the
 * button payloads carry the ids, and each press is decided from the payload
 * and the message the button sits on.
 */
module Confirm {
  import opened Wrappers
  import opened Text

  const USAGE_TAG: string := "confirmUsage"
  const YES_TAG: string := "confirmYes"
  const NO_TAG: string := "confirmNo"

  /** The button under a delivered code: `f"confirmUsage_{code[0]}_{user_id}"`. */
  function UsagePayload(codeId: int, user: int): string {
    Join([USAGE_TAG, IntToString(codeId), IntToString(user)], '_')
  }

  /** `f"confirmYes_{code_id}"`, where `code_id` is still the text taken from the usage payload. */
  function YesPayload(codeId: string): string {
    Join([YES_TAG, codeId], '_')
  }

  /** `f"confirmNo_{code_id}"`. */
  function NoPayload(codeId: string): string {
    Join([NO_TAG, codeId], '_')
  }

  /**
   * `_, code_id, request_user_id = data.split('_')` and
   * `int(request_user_id)`: exactly three pieces and an integer last piece,
   * otherwise the handler raises (`None`).
   */
  function ParseUsage(data: string): Option<(string, int)> {
    var parts := Split(data, '_');
    if |parts| != 3 then None
    else match ParseInt(parts[2])
      case None => None
      case Some(user) => Some((parts[1], user))
  }

  /** `_, code_id = data.split('_')`: exactly two pieces, otherwise the handler raises. */
  function ParseYes(data: string): Option<string> {
    var parts := Split(data, '_');
    if |parts| != 2 then None else Some(parts[1])
  }

  predicate StartsWith(s: string, prefix: string) {
    |prefix| <= |s| && s[..|prefix|] == prefix
  }

  datatype Label = UsedLabel | ConfirmLabel | CancelLabel
  datatype Button = Button(kind: Label, data: string)
  datatype MessageText = CodeText(code: string) | ConfirmPromptText

  /** The chat message a button belongs to, as the bot last left it. */
  datatype ChatMessage = Shown(text: MessageText, buttons: seq<Button>) | Deleted

  /** What the presser sees besides the message: nothing, a short notice (not an alert), or a handler that raised. */
  datatype CallbackAnswer = NoAnswer | NotAuthorizedNotice | CancelledNotice | HandlerFailed

  /** The message `/povo` sends with a code. */
  function OfferMessage(code: string, codeId: int, user: int): ChatMessage {
    Shown(CodeText(code), [Button(UsedLabel, UsagePayload(codeId, user))])
  }

  /** The message after `prompt_confirm_usage` edits it. */
  function PromptMessage(codeId: string): ChatMessage {
    Shown(ConfirmPromptText, [Button(ConfirmLabel, YesPayload(codeId)), Button(CancelLabel, NoPayload(codeId))])
  }

  /**
   * A button press with payload `data` by user `presser` on `msg`, routed by
   * prefix to `prompt_confirm_usage`, `confirm_usage` or `cancel_usage`.
   * Editing or deleting a message that is already gone raises.
   */
  function OnCallback(msg: ChatMessage, data: string, presser: int): (ChatMessage, CallbackAnswer) {
    if StartsWith(data, USAGE_TAG) then
      match ParseUsage(data)
      case None => (msg, HandlerFailed)
      case Some((codeId, user)) =>
        if presser != user then (msg, NotAuthorizedNotice)
        else if msg.Deleted? then (msg, HandlerFailed)
        else (PromptMessage(codeId), NoAnswer)
    else if StartsWith(data, YES_TAG) then
      match ParseYes(data)
      case None => (msg, HandlerFailed)
      case Some(_) => if msg.Deleted? then (msg, HandlerFailed) else (Deleted, NoAnswer)
    else if StartsWith(data, NO_TAG) then (msg, CancelledNotice)
    else (msg, NoAnswer)
  }

  lemma NoUnderscoreInInt(n: int)
    ensures '_' !in IntToString(n)
  {
  }

  /** The usage payload parses back to the code id (as text, and as the int it names) and the user. */
  lemma UsagePayloadRoundTrip(codeId: int, user: int)
    ensures ParseUsage(UsagePayload(codeId, user)) == Some((IntToString(codeId), user))
    ensures ParseInt(IntToString(codeId)) == Some(codeId)
  {
    NoUnderscoreInInt(codeId);
    NoUnderscoreInInt(user);
    var parts := [USAGE_TAG, IntToString(codeId), IntToString(user)];
    SplitJoin(parts, '_');
    ParseIntRoundTrip(user);
    ParseIntRoundTrip(codeId);
  }

  lemma YesPayloadRoundTrip(codeId: string)
    requires '_' !in codeId
    ensures ParseYes(YesPayload(codeId)) == Some(codeId)
  {
    SplitJoin([YES_TAG, codeId], '_');
  }

  lemma PayloadPrefixes(codeId: int, user: int, text: string)
    ensures StartsWith(UsagePayload(codeId, user), USAGE_TAG)
    ensures !StartsWith(UsagePayload(codeId, user), YES_TAG) && !StartsWith(UsagePayload(codeId, user), NO_TAG)
    ensures StartsWith(YesPayload(text), YES_TAG) && !StartsWith(YesPayload(text), USAGE_TAG)
    ensures StartsWith(NoPayload(text), NO_TAG)
    ensures !StartsWith(NoPayload(text), USAGE_TAG) && !StartsWith(NoPayload(text), YES_TAG)
  {
    var u := UsagePayload(codeId, user);
    var parts := [USAGE_TAG, IntToString(codeId), IntToString(user)];
    assert parts[1..] == [IntToString(codeId), IntToString(user)];
    assert u == USAGE_TAG + (['_'] + Join(parts[1..], '_'));
    assert u[..|USAGE_TAG|] == USAGE_TAG;
    assert u[7] == 'U' && YES_TAG[7] == 'Y' && NO_TAG[7] == 'N';
    var y := YesPayload(text);
    assert y[..|YES_TAG|] == YES_TAG;
    assert y[7] == 'Y' && USAGE_TAG[7] == 'U';
    var n := NoPayload(text);
    assert n[..|NO_TAG|] == NO_TAG;
    assert n[7] == 'N' && YES_TAG[7] == 'Y';
  }

  /**
   * Pressing the button of an offer moves it to the Yes/No prompt exactly
   * when the presser is the user the offer was made to; anyone else gets
   * the not-authorized notice and the offer stays as it was.
   */
  lemma PromptIffRequester(code: string, codeId: int, user: int, presser: int)
    ensures OnCallback(OfferMessage(code, codeId, user), UsagePayload(codeId, user), presser)
            == if presser == user then (PromptMessage(IntToString(codeId)), NoAnswer)
               else (OfferMessage(code, codeId, user), NotAuthorizedNotice)
  {
    PayloadPrefixes(codeId, user, "");
    UsagePayloadRoundTrip(codeId, user);
  }

  /** "Yes" deletes the prompt whoever presses it. */
  lemma ConfirmYesDeletes(codeId: int, presser: int)
    ensures OnCallback(PromptMessage(IntToString(codeId)), YesPayload(IntToString(codeId)), presser)
            == (Deleted, NoAnswer)
  {
    NoUnderscoreInInt(codeId);
    YesPayloadRoundTrip(IntToString(codeId));
    PayloadPrefixes(codeId, 0, IntToString(codeId));
  }

  /** "No" only answers: the message, whatever it shows, is left in place. */
  lemma ConfirmNoKeepsMessage(msg: ChatMessage, codeId: string, presser: int)
    ensures OnCallback(msg, NoPayload(codeId), presser) == (msg, CancelledNotice)
  {
    PayloadPrefixes(0, 0, codeId);
  }

  /**
   * Every press either leaves the message as it was, or moves it to the
   * prompt for a payload that parses and names the presser, or deletes it
   * for a well-formed "Yes" payload. A payload that does not parse changes
   * nothing.
   */
  lemma CallbackTransitions(msg: ChatMessage, data: string, presser: int)
    ensures var (after, _) := OnCallback(msg, data, presser);
      || after == msg
      || (&& StartsWith(data, USAGE_TAG) && ParseUsage(data).Some?
          && ParseUsage(data).value.1 == presser && msg.Shown?
          && after == PromptMessage(ParseUsage(data).value.0))
      || (StartsWith(data, YES_TAG) && ParseYes(data).Some? && msg.Shown? && after.Deleted?)
    ensures StartsWith(data, USAGE_TAG) && ParseUsage(data).None? ==> OnCallback(msg, data, presser).0 == msg
    ensures !StartsWith(data, USAGE_TAG) && StartsWith(data, YES_TAG) && ParseYes(data).None?
            ==> OnCallback(msg, data, presser).0 == msg
  {
  }
}
