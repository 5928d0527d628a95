/**
  The draft page's "Save Draft" button: checks, in order, that someone is
  signed in and that the picks fit the budget, and only then builds the one
  draft request sent to the backend.
 */
module Draft {
  import opened Players
  import opened Selection
  import opened Identity

  /** The body of the draft write: `{user_id, week, player_ids, budget}`. */
  datatype DraftRequest = DraftRequest(userId: string, week: int, playerIds: seq<string>, budget: int)

  /** What pressing Save leads to: one of the two refusals, or the request to send. */
  datatype SaveOutcome =
    | SignInFirst
    | BudgetExceeded
    | Submit(request: DraftRequest)

  /** The draft flow always writes week 1. */
  const DraftWeek: int := 1

  /** The request's id list: each selected entry's draft id, in selection order. */
  function PlayerIds(s: Selection): (ids: seq<string>)
    ensures |ids| == |s|
    ensures forall i :: 0 <= i < |s| ==> ids[i] == DraftKey(s[i])
  {
    if s == [] then []
    else
      var rest := PlayerIds(s[1..]);
      var ids := [DraftKey(s[0])] + rest;
      assert forall i :: 1 <= i < |s| ==> ids[i] == rest[i - 1] && s[i] == s[1..][i - 1];
      ids
  }

  /** The save handler, with the alerts and the network write replaced by its outcome. */
  function Save(user: Option<User>, s: Selection): (o: SaveOutcome)
    ensures o == SignInFirst <==> user.None?
    ensures o == BudgetExceeded <==> user.Some? && Total(s) > Budget
    ensures o.Submit? <==> user.Some? && Total(s) <= Budget
    ensures o.Submit? ==>
              && o.request.userId == user.value.userId
              && o.request.week == 1
              && o.request.budget == 100
              && |o.request.playerIds| == |s|
              && forall i :: 0 <= i < |s| ==> o.request.playerIds[i] == DraftKey(s[i])
  {
    if user.None? then SignInFirst
    else if Total(s) > Budget then BudgetExceeded
    else Submit(DraftRequest(user.value.userId, DraftWeek, PlayerIds(s), Budget))
  }

  /** Without a user the outcome is the sign-in refusal whatever the selection, even one over budget. */
  lemma SaveChecksSignInFirst(s: Selection)
    ensures Save(None, s) == Save(None, [])
    ensures Total(s) > Budget ==> Save(None, s) != BudgetExceeded
  {
  }

  /** With a user, Save goes through exactly when the displayed remaining budget is not negative. */
  lemma SaveMatchesRemaining(user: User, s: Selection)
    ensures Save(Some(user), s).Submit? <==> Remaining(s) >= 0
    ensures Save(Some(user), s) == BudgetExceeded <==> Remaining(s) < 0
  {
  }

  /** Spending the whole budget is allowed: the check is strictly "greater than". */
  lemma SaveAcceptsExactBudget(user: User, s: Selection)
    requires Total(s) == 100
    ensures Save(Some(user), s).Submit?
    ensures Save(Some(user), s).request.playerIds == PlayerIds(s)
  {
  }

  /** Ids of a concatenation are the concatenated ids. */
  lemma {:induction false} PlayerIdsConcat(a: Selection, b: Selection)
    ensures PlayerIds(a + b) == PlayerIds(a) + PlayerIds(b)
  {
    var ids, left, right := PlayerIds(a + b), PlayerIds(a), PlayerIds(b);
    assert |ids| == |left + right|;
    forall i | 0 <= i < |ids| ensures ids[i] == (left + right)[i] {
      if i < |a| {
        assert (a + b)[i] == a[i];
      } else {
        assert (a + b)[i] == b[i - |a|];
      }
    }
  }

  /** Adding a player appends its id to the request's ids; earlier ids keep their order. */
  lemma PlayerIdsToggleAdd(s: Selection, p: Player)
    requires !Contains(s, p.ign)
    ensures PlayerIds(Toggle(s, p)) == PlayerIds(s) + [DraftKey(p)]
  {
    PlayerIdsConcat(s, [p]);
  }

  /** Deleting the entry at `i` deletes the id at `i`. */
  lemma PlayerIdsRemoveAt(s: Selection, i: int)
    requires 0 <= i < |s|
    ensures PlayerIds(s[..i] + s[i + 1..]) == PlayerIds(s)[..i] + PlayerIds(s)[i + 1..]
  {
    var r := s[..i] + s[i + 1..];
    var all := PlayerIds(s);
    var kept, expected := PlayerIds(r), all[..i] + all[i + 1..];
    forall j | 0 <= j < |kept| ensures kept[j] == expected[j] {
      if j < i {
        assert r[j] == s[j] && expected[j] == all[j];
      } else {
        assert r[j] == s[j + 1] && expected[j] == all[j + 1];
      }
    }
  }

  /** Removing a selected player from a duplicate-free selection drops just its id. */
  lemma PlayerIdsToggleRemove(s: Selection, p: Player, i: int)
    requires Unique(s)
    requires 0 <= i < |s| && s[i].ign == p.ign
    ensures PlayerIds(Toggle(s, p)) == PlayerIds(s)[..i] + PlayerIds(s)[i + 1..]
  {
    WithoutUnique(s, p.ign, i);
    PlayerIdsRemoveAt(s, i);
  }

  /** Two picks costing 40 and 65 come to 105: shown as -5 remaining, and Save refuses. */
  lemma OverBudgetScenario()
    ensures var s := [Player(None, None, None, "A", "", 40), Player(None, None, None, "B", "", 65)];
            && Total(s) == 105
            && Remaining(s) == -5
            && Save(Some(User("7", "", "")), s) == BudgetExceeded
  {
    var s := [Player(None, None, None, "A", "", 40), Player(None, None, None, "B", "", 65)];
    assert s[..1] == [s[0]];
  }

  /** One pick costing 40 by user 7, no id fields: the request carries the in-game name. */
  lemma SubmitScenario()
    ensures var s := [Player(None, None, None, "A", "", 40)];
            Save(Some(User("7", "", "")), s) == Submit(DraftRequest("7", 1, ["A"], 100))
  {
    var s := [Player(None, None, None, "A", "", 40)];
    assert PlayerIds(s) == ["A"];
  }
}
