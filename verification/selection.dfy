/**
  The draft page's roster selection: an ordered list of player records keyed
  by in-game name, the toggle that adds or removes a player, and the running
  cost total against the fixed budget.
 */
module Selection {
  import opened Players

  /** The selected players, in the order they were added. */
  type Selection = seq<Player>

  /** The draft budget ceiling. */
  const Budget: int := 100

  /**
    The toggle's test: the search by in-game name finds an entry. A found
    entry is a record, which is always truthy, so the test is just "found"
    (see `Lookup`, which finds nothing exactly when this is false).
   */
  predicate Contains(s: Selection, k: string)
  {
    exists i :: 0 <= i < |s| && s[i].ign == k
  }

  /** No two entries share an in-game name. */
  predicate Unique(s: Selection)
  {
    forall i, j :: 0 <= i < j < |s| ==> s[i].ign != s[j].ign
  }

  /** `a` is obtained from `b` by deleting entries, keeping the order of the rest. */
  ghost predicate IsSubsequence(a: Selection, b: Selection)
  {
    if a == [] then true
    else if b == [] then false
    else (a[0] == b[0] && IsSubsequence(a[1..], b[1..])) || IsSubsequence(a, b[1..])
  }

  /** The search by in-game name: the first entry whose name is `k`, if any. */
  function Lookup(s: Selection, k: string): (r: Option<Player>)
    ensures r.None? <==> !Contains(s, k)
    ensures r.Some? ==> r.value.ign == k && r.value in s
  {
    if s == [] then None
    else if s[0].ign == k then Some(s[0])
    else
      var rest := Lookup(s[1..], k);
      assert forall i :: 1 <= i < |s| ==> s[i] == s[1..][i - 1];
      rest
  }

  /** Keeping only the entries whose in-game name is not `k`: none named `k` survives. */
  function Without(s: Selection, k: string): (r: Selection)
    ensures !Contains(r, k)
    ensures |r| <= |s|
  {
    if s == [] then []
    else
      var rest := Without(s[1..], k);
      if s[0].ign == k then rest
      else
        var r := [s[0]] + rest;
        assert forall i :: 1 <= i < |r| ==> r[i] == rest[i - 1];
        r
  }

  /**
    The Add/Remove button: a player whose in-game name is already selected is
    removed (every entry with that name goes); otherwise it is appended.
   */
  function Toggle(s: Selection, p: Player): (r: Selection)
    ensures Contains(r, p.ign) <==> !Contains(s, p.ign)
    ensures !Contains(s, p.ign) ==> |r| == |s| + 1 && r[..|s|] == s && r[|s|] == p
  {
    if Contains(s, p.ign) then Without(s, p.ign)
    else
      var r := s + [p];
      assert r[|s|] == p;
      r
  }

  /** The cost total: the costs folded from the left, starting at 0. */
  function Total(s: Selection): (t: int)
    ensures s == [] ==> t == 0
    ensures (forall i :: 0 <= i < |s| ==> s[i].cost >= 0) ==> t >= 0
  {
    if s == [] then 0
    else
      var front := s[..|s| - 1];
      assert forall i :: 0 <= i < |front| ==> front[i] == s[i];
      Total(front) + s[|s| - 1].cost
  }

  /** The reduce loop itself: one pass adding each pick's cost to an accumulator that starts at 0. */
  method ReduceTotal(s: Selection) returns (t: int)
    ensures t == Total(s)
    ensures s == [] ==> t == 0
  {
    t := 0;
    var i := 0;
    while i < |s|
      invariant 0 <= i <= |s|
      invariant t == Total(s[..i])
    {
      assert s[..i + 1][..i] == s[..i];
      t := t + s[i].cost;
      i := i + 1;
    }
    assert s[..|s|] == s;
  }

  /** The amount shown next to "Budget": it goes negative once the picks cost too much. */
  function Remaining(s: Selection): (r: int)
    ensures r < 0 <==> Total(s) > Budget
    ensures r + Total(s) == Budget
  {
    Budget - Total(s)
  }

  /** The search returns the FIRST entry with the name, as an array search does. */
  lemma {:induction false} LookupIsFirst(s: Selection, k: string, i: int)
    requires 0 <= i < |s| && s[i].ign == k
    requires forall j :: 0 <= j < i ==> s[j].ign != k
    ensures Lookup(s, k) == Some(s[i])
  {
    if i > 0 {
      assert s[1..][i - 1] == s[i];
      assert forall j :: 0 <= j < i - 1 ==> s[1..][j] == s[j + 1];
      LookupIsFirst(s[1..], k, i - 1);
    }
  }

  // ---------------------------------------------------------------------------
  // Total

  /** The left fold agrees with the fold from the right: the first cost plus the total of the rest. */
  lemma {:induction false} TotalFromFront(s: Selection)
    requires s != []
    ensures Total(s) == s[0].cost + Total(s[1..])
  {
    if |s| > 1 {
      var front, rest := s[..|s| - 1], s[1..];
      assert front[0] == s[0] && front[1..] == rest[..|rest| - 1];
      assert rest[|rest| - 1] == s[|s| - 1];
      TotalFromFront(front);
    }
  }

  /** The total of a concatenation is the sum of the totals. */
  lemma {:induction false} TotalConcat(a: Selection, b: Selection)
    ensures Total(a + b) == Total(a) + Total(b)
    decreases |b|
  {
    if b == [] {
      assert a + b == a;
    } else {
      var front := b[..|b| - 1];
      assert (a + b)[..|a + b| - 1] == a + front;
      assert (a + b)[|a + b| - 1] == b[|b| - 1];
      TotalConcat(a, front);
    }
  }

  /** Adding a player raises the total by exactly that player's cost. */
  lemma TotalToggleAdd(s: Selection, p: Player)
    requires !Contains(s, p.ign)
    ensures Total(Toggle(s, p)) == Total(s) + p.cost
    ensures Remaining(Toggle(s, p)) == Remaining(s) - p.cost
  {
  }

  /** Removing a selected player from a duplicate-free selection lowers the total by its cost. */
  lemma TotalToggleRemove(s: Selection, p: Player, i: int)
    requires Unique(s)
    requires 0 <= i < |s| && s[i].ign == p.ign
    ensures Total(Toggle(s, p)) == Total(s) - s[i].cost
    ensures Remaining(Toggle(s, p)) == Remaining(s) + s[i].cost
  {
    WithoutUnique(s, p.ign, i);
    TotalRemoveAt(s, i);
  }

  /** Deleting the entry at `i` lowers the total by that entry's cost. */
  lemma {:induction false} TotalRemoveAt(s: Selection, i: int)
    requires 0 <= i < |s|
    ensures Total(s[..i] + s[i + 1..]) == Total(s) - s[i].cost
  {
    var front := s[..|s| - 1];
    if i == |s| - 1 {
      assert s[..i] + s[i + 1..] == front;
    } else {
      var shorter := front[..i] + front[i + 1..];
      var r := s[..i] + s[i + 1..];
      assert r == shorter + [s[|s| - 1]];
      assert r[..|r| - 1] == shorter;
      TotalRemoveAt(front, i);
    }
  }

  // ---------------------------------------------------------------------------
  // Without

  /**
    The filter keeps every entry not named `k`, each as often as before, and in
    their original relative order.
   */
  lemma {:induction false} WithoutKeepsOthers(s: Selection, k: string)
    ensures IsSubsequence(Without(s, k), s)
    ensures forall x {:trigger multiset(Without(s, k))[x]} ::
              multiset(Without(s, k))[x] == if x.ign == k then 0 else multiset(s)[x]
  {
    if s != [] {
      var rest := Without(s[1..], k);
      WithoutKeepsOthers(s[1..], k);
      assert s == [s[0]] + s[1..];
      if s[0].ign != k {
        var r := [s[0]] + rest;
        assert r[1..] == rest;
      }
    }
  }

  /** Filtering out a name that is not selected changes nothing. */
  lemma {:induction false} WithoutAbsent(s: Selection, k: string)
    requires !Contains(s, k)
    ensures Without(s, k) == s
  {
    if s != [] {
      assert s[0].ign != k;
      assert !Contains(s[1..], k) by {
        forall i | 0 <= i < |s[1..]| ensures s[1..][i].ign != k {
          assert s[1..][i] == s[i + 1];
        }
      }
      WithoutAbsent(s[1..], k);
      assert s == [s[0]] + s[1..];
    }
  }

  /** Filtering distributes over concatenation. */
  lemma {:induction false} WithoutConcat(a: Selection, b: Selection, k: string)
    ensures Without(a + b, k) == Without(a, k) + Without(b, k)
  {
    if a == [] {
      assert a + b == b;
    } else {
      assert (a + b)[0] == a[0];
      assert (a + b)[1..] == a[1..] + b;
      WithoutConcat(a[1..], b, k);
    }
  }

  /** In a duplicate-free selection, filtering out a selected name deletes exactly its one entry. */
  lemma {:induction false} WithoutUnique(s: Selection, k: string, i: int)
    requires Unique(s)
    requires 0 <= i < |s| && s[i].ign == k
    ensures Without(s, k) == s[..i] + s[i + 1..]
  {
    var tail := s[1..];
    assert Unique(tail) by {
      forall a, b | 0 <= a < b < |tail| ensures tail[a].ign != tail[b].ign {
        assert tail[a] == s[a + 1] && tail[b] == s[b + 1];
      }
    }
    if i == 0 {
      assert !Contains(tail, k) by {
        forall j | 0 <= j < |tail| ensures tail[j].ign != k {
          assert tail[j] == s[j + 1];
        }
      }
      WithoutAbsent(tail, k);
    } else {
      assert s[0].ign != k;
      assert tail[i - 1] == s[i];
      WithoutUnique(tail, k, i - 1);
      assert s[..i] == [s[0]] + tail[..i - 1];
      assert s[i + 1..] == tail[i..];
    }
  }

  /** Filtering by one name does not change which entry another name finds. */
  lemma {:induction false} LookupWithout(s: Selection, removed: string, k: string)
    requires removed != k
    ensures Lookup(Without(s, removed), k) == Lookup(s, k)
  {
    if s != [] {
      LookupWithout(s[1..], removed, k);
      if s[0].ign != removed {
        assert Without(s, removed)[1..] == Without(s[1..], removed);
      }
    }
  }

  /** Appending a player does not change what an already-present name, or a different name, finds. */
  lemma {:induction false} LookupAppend(s: Selection, p: Player, k: string)
    requires Contains(s, k) || p.ign != k
    ensures Lookup(s + [p], k) == Lookup(s, k)
  {
    if s == [] {
      assert [] + [p] == [p];
    } else {
      assert (s + [p])[0] == s[0];
      assert (s + [p])[1..] == s[1..] + [p];
      if s[0].ign != k {
        if Contains(s, k) {
          var i :| 0 <= i < |s| && s[i].ign == k;
          assert s[1..][i - 1] == s[i];
        }
        LookupAppend(s[1..], p, k);
      }
    }
  }

  // ---------------------------------------------------------------------------
  // Toggle

  /** Deleting one entry keeps a selection duplicate-free. */
  lemma UniqueRemoveAt(s: Selection, i: int)
    requires Unique(s)
    requires 0 <= i < |s|
    ensures Unique(s[..i] + s[i + 1..])
  {
    var r := s[..i] + s[i + 1..];
    forall a, b | 0 <= a < b < |r| ensures r[a].ign != r[b].ign {
      var a' := if a < i then a else a + 1;
      var b' := if b < i then b else b + 1;
      assert r[a] == s[a'] && r[b] == s[b'];
    }
  }

  /**
    Removing by toggle keeps every other record, each as often as before and in
    the same relative order.
   */
  lemma ToggleRemoveKeepsOthers(s: Selection, p: Player)
    requires Contains(s, p.ign)
    ensures IsSubsequence(Toggle(s, p), s)
    ensures forall x {:trigger multiset(Toggle(s, p))[x]} ::
              multiset(Toggle(s, p))[x] == if x.ign == p.ign then 0 else multiset(s)[x]
  {
    WithoutKeepsOthers(s, p.ign);
  }

  /** Toggling never introduces two entries with the same in-game name. */
  lemma ToggleKeepsUnique(s: Selection, p: Player)
    requires Unique(s)
    ensures Unique(Toggle(s, p))
  {
    if Contains(s, p.ign) {
      var i :| 0 <= i < |s| && s[i].ign == p.ign;
      WithoutUnique(s, p.ign, i);
      UniqueRemoveAt(s, i);
    } else {
      var r := s + [p];
      forall a, b | 0 <= a < b < |r| ensures r[a].ign != r[b].ign {
        if b == |s| {
          assert r[a] == s[a];
        } else {
          assert r[a] == s[a] && r[b] == s[b];
        }
      }
    }
  }

  /** What each name finds after a toggle: only the toggled name changes, flipping between absent and `p`. */
  lemma LookupToggle(s: Selection, p: Player, k: string)
    ensures Lookup(Toggle(s, p), k) ==
              if k != p.ign then Lookup(s, k)
              else if Contains(s, k) then None
              else Some(p)
  {
    if Contains(s, p.ign) {
      if k != p.ign {
        LookupWithout(s, p.ign, k);
      }
    } else if k != p.ign || Contains(s, k) {
      LookupAppend(s, p, k);
    }
  }

  /** Toggling an unselected player twice gives back the original selection. */
  lemma ToggleTwiceRestores(s: Selection, p: Player)
    requires !Contains(s, p.ign)
    ensures Toggle(Toggle(s, p), p) == s
  {
    WithoutConcat(s, [p], p.ign);
    WithoutAbsent(s, p.ign);
    assert Without([p], p.ign) == [];
  }

  /** Toggling a selected player twice moves it, as the new record, to the end. */
  lemma ToggleTwiceMovesToEnd(s: Selection, p: Player, i: int)
    requires Unique(s)
    requires 0 <= i < |s| && s[i].ign == p.ign
    ensures Toggle(Toggle(s, p), p) == s[..i] + s[i + 1..] + [p]
  {
    WithoutUnique(s, p.ign, i);
    ToggleKeepsUnique(s, p);
  }
}
