/**
  The transfer page's "Confirm Transfer" button: with someone signed in and a
  player chosen in each of the two drop-downs, it builds one transfer request.
 */
module Transfer {
  import opened Players
  import opened Identity

  /** The body of the transfer write: `{user_id, week, out_player_id, in_player_id}`. */
  datatype TransferRequest = TransferRequest(userId: string, week: int, outPlayerId: string, inPlayerId: string)

  /** What pressing Confirm leads to: the sign-in refusal, silently nothing, or the request to send. */
  datatype TransferOutcome =
    | TransferSignInFirst
    | NothingChosen
    | RequestTransfer(request: TransferRequest)

  /** The transfer flow always writes week 1. */
  const TransferWeek: int := 1

  /**
    The value of a player's entry in either drop-down: the first truthy of the
    `_id` and `id` fields, falling back to the in-game name.
    Unlike the draft id it never consults `pid`. The placeholder entry's value is "".
   */
  function OptionValue(p: Player): (v: string)
    ensures Truthy(p.docId) ==> v == p.docId.value
    ensures !Truthy(p.docId) && Truthy(p.id) ==> v == p.id.value
    ensures !Truthy(p.docId) && !Truthy(p.id) ==> v == p.ign
  {
    var candidates := [p.docId, p.id];
    assert candidates[0] == p.docId && candidates[1] == p.id;
    FirstTruthy(candidates, p.ign)
  }

  /**
    The submit handler: no user gives the sign-in refusal; an empty choice in
    either drop-down does nothing; otherwise one request is built.
   */
  function SubmitTransfer(user: Option<User>, outId: string, inId: string): (o: TransferOutcome)
    ensures o == TransferSignInFirst <==> user.None?
    ensures o == NothingChosen <==> user.Some? && (outId == "" || inId == "")
    ensures o.RequestTransfer? <==> user.Some? && outId != "" && inId != ""
    ensures o.RequestTransfer? ==>
              && o.request.userId == user.value.userId
              && o.request.week == 1
              && o.request.outPlayerId == outId && outId != ""
              && o.request.inPlayerId == inId && inId != ""
  {
    if user.None? then TransferSignInFirst
    else if outId == "" || inId == "" then NothingChosen
    else RequestTransfer(TransferRequest(user.value.userId, TransferWeek, outId, inId))
  }

  /**
    A drop-down entry sends the same id a draft would, except for a player
    whose only truthy id field is a `pid` differing from its in-game name.
   */
  lemma OptionValueMatchesDraftKey(p: Player)
    ensures OptionValue(p) == DraftKey(p) <==>
              Truthy(p.docId) || Truthy(p.id) || !Truthy(p.pid) || p.pid.value == p.ign
  {
  }

  /**
    Choosing a player is indistinguishable from the placeholder exactly when
    it has no `_id` or `id` and an empty in-game name; such a choice does nothing.
   */
  lemma ChosenPlayerIsSubmitted(user: User, out: Player, into: Player)
    ensures OptionValue(out) == "" <==> !Truthy(out.docId) && !Truthy(out.id) && out.ign == ""
    ensures SubmitTransfer(Some(user), OptionValue(out), OptionValue(into)).RequestTransfer? <==>
              OptionValue(out) != "" && OptionValue(into) != ""
  {
  }
}
