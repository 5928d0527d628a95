/**
  A visit to the draft page: the selection starts empty and every click on a
  player's Add/Remove button toggles that player. These lemmas describe the
  selection reached after any history of clicks.
 */
module Session {
  import opened Players
  import opened Selection

  /** The selection after toggling the players of `history` in order, starting empty. */
  function Replay(history: seq<Player>): (s: Selection)
  {
    if history == [] then []
    else Toggle(Replay(history[..|history| - 1]), history[|history| - 1])
  }

  /** How many clicks in `history` were on a player named `k`. */
  function Toggles(history: seq<Player>, k: string): (n: nat)
    ensures n <= |history|
  {
    if history == [] then 0
    else Toggles(history[..|history| - 1], k) + (if history[|history| - 1].ign == k then 1 else 0)
  }

  /** The record of the most recent click on a player named `k`, if there was one. */
  function LastToggled(history: seq<Player>, k: string): (r: Option<Player>)
    ensures r.Some? <==> Toggles(history, k) > 0
    ensures r.Some? ==> r.value.ign == k && r.value in history
  {
    if history == [] then None
    else if history[|history| - 1].ign == k then Some(history[|history| - 1])
    else
      var front := history[..|history| - 1];
      var r := LastToggled(front, k);
      assert r.Some? ==> r.value in front && front <= history;
      r
  }

  /** One more click flips the parity of a click count. */
  lemma NextParity(n: nat)
    ensures (n + 1) % 2 == 1 <==> n % 2 == 0
  {
  }

  /** Whatever the clicks, no in-game name is ever selected twice. */
  lemma {:induction false} ReplayUnique(history: seq<Player>)
    ensures Unique(Replay(history))
  {
    if history != [] {
      ReplayUnique(history[..|history| - 1]);
      ToggleKeepsUnique(Replay(history[..|history| - 1]), history[|history| - 1]);
    }
  }

  /**
    One click, in terms of a click count `n` and the last clicked record: the
    parity rule that holds before the click holds after it.
   */
  lemma ToggleStep(before: Selection, p: Player, k: string, n: nat, last: Option<Player>)
    requires Lookup(before, k) == if n % 2 == 1 then last else None
    requires last.Some? <==> n > 0
    ensures Lookup(Toggle(before, p), k) ==
              if p.ign != k then Lookup(before, k)
              else if (n + 1) % 2 == 1 then Some(p)
              else None
  {
    LookupToggle(before, p, k);
    NextParity(n);
    if p.ign == k {
      if n % 2 == 1 {
        assert Contains(before, k);
      } else {
        assert !Contains(before, k);
      }
    }
  }

  /**
    A name is selected exactly when it was clicked an odd number of times, and
    then the entry held is the record of its most recent click.
   */
  lemma {:induction false} ReplayLookup(history: seq<Player>, k: string)
    ensures Lookup(Replay(history), k) ==
              if Toggles(history, k) % 2 == 1 then LastToggled(history, k) else None
  {
    if history == [] {
      assert Toggles(history, k) == 0;
    } else {
      var front, p := history[..|history| - 1], history[|history| - 1];
      ReplayLookup(front, k);
      ToggleStep(Replay(front), p, k, Toggles(front, k), LastToggled(front, k));
      assert Replay(history) == Toggle(Replay(front), p);
      if p.ign == k {
        assert Toggles(history, k) == Toggles(front, k) + 1;
        assert LastToggled(history, k) == Some(p);
      } else {
        assert Toggles(history, k) == Toggles(front, k);
        assert LastToggled(history, k) == LastToggled(front, k);
      }
    }
  }

  /** Presence after a history of clicks depends only on the parity of clicks on that name. */
  lemma ReplayContains(history: seq<Player>, k: string)
    ensures Contains(Replay(history), k) <==> Toggles(history, k) % 2 == 1
  {
    ReplayLookup(history, k);
    var r := Lookup(Replay(history), k);
    var last := LastToggled(history, k);
    assert Toggles(history, k) % 2 == 1 ==> last.Some?;
    assert r.Some? <==> Toggles(history, k) % 2 == 1;
  }

  /** A player clicked once after any history is held as that record; clicked again, it is gone. */
  lemma ReplayLastClick(history: seq<Player>, p: Player)
    ensures Toggles(history, p.ign) % 2 == 0 ==> Lookup(Replay(history + [p]), p.ign) == Some(p)
    ensures Toggles(history, p.ign) % 2 == 1 ==> !Contains(Replay(history + [p]), p.ign)
  {
    var h := history + [p];
    assert h[..|h| - 1] == history;
    assert Replay(h) == Toggle(Replay(history), p);
    ReplayContains(history, p.ign);
    LookupToggle(Replay(history), p, p.ign);
  }
}
