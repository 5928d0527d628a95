# Fantasy draft roster: a Dafny model

This project models the client-side logic of an MPL ID fantasy-esports front end.
On the draft page a user picks players from a catalogue, each with a cost, under
a fixed budget of 100, and saves the picks as a draft for week 1. On the transfer
page a user picks one player to swap out and one to swap in. All persistence and
scoring happen on a remote backend. What is modelled is the logic that runs
before a request leaves the browser:

- **Selection toggle.** The selection is an ordered list of player records keyed
  by in-game name (`ign`). The Add/Remove button removes every entry with the
  clicked player's name when one is selected. Otherwise it appends the player.
- **Total and remaining budget.** The total is the left fold of the costs. The
  remaining amount shown is `100 - total`, which may be negative.
- **Save.** The checks run in order: first a signed-in user ("Sign in first"),
  then `total > 100` ("Budget exceeded"). Only then is one request
  `{user_id, week: 1, player_ids, budget: 100}` built. Each id is the first truthy
  of `_id`, `id`, `pid`, `ign`. When none of them is truthy, the id is `ign` itself.
- **Transfer submit.** With no user the outcome is "Sign in first". When either
  drop-down is still on the empty placeholder, nothing happens. Otherwise one
  request `{user_id, week: 1, out_player_id, in_player_id}` is built. Each
  drop-down entry's value is `_id || id || ign`.

Modules, one per concept:

- `Players` (players.dfy) holds the player record and JavaScript `||` over optional string fields.
- `Identity` (identity.dfy) holds the signed-in user.
- `Selection` (selection.dfy) holds toggle, filter, lookup, total and remaining budget.
- `Session` (session.dfy) covers what any history of clicks, starting from the empty selection, produces.
- `Draft` (draft.dfy) holds the save decision and the draft request.
- `Transfer` (transfer.dfy) holds the transfer decision, the transfer request and the drop-down value.

Outcomes replace the browser alerts and the network calls. `Save` returns
`SignInFirst | BudgetExceeded | Submit(request)`. `SubmitTransfer` returns
`TransferSignInFirst | NothingChosen | RequestTransfer(request)`. The user is
an `Option<User>` input. Each id field is an `Option<string>`, and "truthy"
means present and not empty. Costs are unbounded integers.

The selection is matched by in-game name everywhere: in the toggle's search
and filter, and in the "selected" highlight. The code compares `ign`
(src/App.jsx:194, 214, 230), never the id that is sent. Two records with the
same in-game name but different ids are never selected together. Clicking one
while the other is selected removes the selected one and adds nothing.

## Model

| member | source | states |
|---|---|---|
| Players.FirstTruthy | src/App.jsx:200 | `c0 \|\| … \|\| last` yields the first truthy candidate when one exists. When none is truthy it yields `last` itself, whether `last` is truthy or not. The result is always `last` or some truthy candidate. |
| Players.DraftKey | src/App.jsx:200 | A draft id is `_id` when that is truthy, else `id`, else `pid`, else the in-game name. |
| Selection.Contains | src/App.jsx:194 | The toggle's test: some entry has the in-game name. `find` returns a record, which is always truthy, so this is its truthiness. |
| Selection.Lookup | src/App.jsx:194 | The search by in-game name finds nothing exactly when no entry has that name. Otherwise it returns a selected entry with that name. |
| Selection.LookupIsFirst | src/App.jsx:194 | The search returns the first entry with the name: whenever entry `i` has the name and no earlier entry does, the result is entry `i`. |
| Selection.Without | src/App.jsx:194 | The filter leaves no entry with the name and never grows the selection. |
| Selection.WithoutKeepsOthers | src/App.jsx:194 | Every record not named `k` survives the filter as often as before. Entries named `k` are gone, and the survivors keep their original relative order (a subsequence). |
| Selection.Toggle | src/App.jsx:193-196 | After a toggle the name is selected iff it was not before. An absent player is appended at the end, with all earlier entries unchanged. |
| Selection.ToggleRemoveKeepsOthers | src/App.jsx:194 | Toggling a selected name removes every entry with that name. All other entries keep their multiplicity and relative order. |
| Selection.Total | src/App.jsx:190 | The left fold of the costs from 0 is 0 on the empty selection, and is never negative when no cost is negative. |
| Selection.TotalFromFront | src/App.jsx:190 | The left fold agrees with the fold from the right: the first cost plus the total of the rest. |
| Selection.ReduceTotal | src/App.jsx:190 | The reduce loop, starting from 0 and adding each cost in selection order, equals the cost total. An empty selection totals 0. |
| Selection.Remaining | src/App.jsx:210 | The remaining budget plus the total is 100. It is negative exactly when the total exceeds the budget. |
| Selection.TotalConcat | src/App.jsx:190 | The total of a concatenation is the sum of the two totals. |
| Selection.TotalToggleAdd | src/App.jsx:190-195 | Adding a player raises the total by its cost and lowers the remaining budget by the same amount. |
| Selection.TotalRemoveAt | src/App.jsx:190 | Deleting the entry at a position lowers the total by exactly that entry's cost. |
| Selection.TotalToggleRemove | src/App.jsx:190-194 | In a duplicate-free selection, removing a player lowers the total by the removed entry's cost and raises the remaining budget by the same amount. |
| Selection.WithoutAbsent | src/App.jsx:194 | Filtering out a name that is not selected leaves the selection unchanged. |
| Selection.WithoutConcat | src/App.jsx:194 | The filter distributes over concatenation. |
| Selection.WithoutUnique | src/App.jsx:194 | In a duplicate-free selection, the filter deletes exactly the one entry with that name, at its position. |
| Selection.ToggleKeepsUnique | src/App.jsx:193-196 | Toggling keeps a selection free of duplicate in-game names. |
| Selection.LookupToggle | src/App.jsx:193-196 | A toggle changes only what the toggled name finds. That name goes from absent to the clicked record, or from present to absent. |
| Selection.ToggleTwiceRestores | src/App.jsx:194-195 | Toggling an unselected player twice returns the original selection exactly. |
| Selection.ToggleTwiceMovesToEnd | src/App.jsx:194-195 | Toggling a selected player twice removes it and then appends the clicked record at the end. |
| Session.ReplayUnique | src/App.jsx:188-196 | Starting from the empty selection, any sequence of clicks leaves the in-game names unique. |
| Session.ReplayLookup | src/App.jsx:188-196 | After any click history, a name is selected iff it was clicked an odd number of times. The entry held is then the record from its most recent click. |
| Session.ReplayContains | src/App.jsx:188-196 | Presence after a click history is decided by the parity of clicks on that name. |
| Session.ReplayLastClick | src/App.jsx:193-196 | One more click on a name clicked an even number of times selects exactly the clicked record. A click on a name clicked an odd number of times deselects it. |
| Draft.PlayerIds | src/App.jsx:200 | `player_ids` has one id per selected entry, in selection order, each being that entry's draft id. |
| Draft.Save | src/App.jsx:197-202 | With no user the outcome is "sign in first". With a user and total > 100 it is "budget exceeded". Otherwise exactly one request is built, with the user's id, week 1, budget 100, and the selection's ids in order. Each direction is stated as an iff. |
| Draft.SaveChecksSignInFirst | src/App.jsx:198-199 | The sign-in check comes first. Without a user the outcome does not depend on the selection, and even an over-budget selection is not refused as over budget. |
| Draft.SaveMatchesRemaining | src/App.jsx:189-199 | With a user, Save submits iff the displayed remaining budget (line 210) is non-negative. It refuses over budget iff that amount is negative. |
| Draft.SaveAcceptsExactBudget | src/App.jsx:199 | A total of exactly 100 is accepted, and the request carries the selection's ids. |
| Draft.PlayerIdsConcat | src/App.jsx:200 | The ids of a concatenation are the concatenated ids. |
| Draft.PlayerIdsToggleAdd | src/App.jsx:195-200 | After adding a player, the request ids are the previous ids followed by the new player's id. |
| Draft.PlayerIdsToggleRemove | src/App.jsx:194-200 | After removing a player from a duplicate-free selection, the request ids lose just that player's id at its position. |
| Draft.OverBudgetScenario | src/App.jsx:189-199 | Picks costing 40 and 65 total 105 and show -5 remaining, and Save refuses as over budget. |
| Draft.SubmitScenario | src/App.jsx:197-200 | User 7 with one pick "A" (cost 40, no id fields) sends `{user_id: 7, week: 1, player_ids: ["A"], budget: 100}`. |
| Transfer.OptionValue | src/App.jsx:343 | A drop-down entry's value is `_id` when truthy, else `id` when truthy, else the in-game name. |
| Transfer.SubmitTransfer | src/App.jsx:331-336 | With no user the outcome is "sign in first". With a user and an empty out or in choice, nothing happens. A request is built iff there is a user and both ids are non-empty. It carries the user's id, week 1, and both chosen ids. Each outcome is stated as an iff. |
| Transfer.OptionValueMatchesDraftKey | src/App.jsx:343-347 | A drop-down value equals the draft id iff `_id` or `id` is truthy, or `pid` is not truthy, or `pid` equals the in-game name. |
| Transfer.ChosenPlayerIsSubmitted | src/App.jsx:331-347 | An entry's value is empty iff the player has no truthy `_id`/`id` and an empty in-game name. With a user, choosing two players yields a request iff both values are non-empty. |

## Left out

- Rendering and layout (`Nav`, `AuthMenu`, `Shell`, `Card`, `HeroPanel`, `FlowPanel`, `Stat`, the page markup) are left out: they have no stated behaviour. The one markup expression kept is the drop-down value, because it decides the transfer ids.
- Routing (`App`, the router, `useNavigate`) is left out as framework plumbing.
- `useAuth`, its local-storage persistence and the global auth handle (src/App.jsx:40-95) are left out as browser storage and global state. The user is an input.
- src/lib/api.js is left out: the HTTP wrappers are I/O, and `roleColors` is a display table.
- Loading the player catalogue, and the swallowing of read failures in the loaders, are left out: both are network I/O.
- The asynchronous draft and transfer writes are left out, including their unhandled rejection, the "Draft saved!"/"Transfer requested" alerts and overlapping in-flight submissions. The model stops at the request that would be sent.
- Player role and performance metrics are left out: they are display-only fields.
- JavaScript numbers are not modelled. Costs are unbounded integers, with no floating-point sums and no non-numeric costs.
- JavaScript truthiness is narrowed to strings. An id field is truthy when present and non-empty. Numeric ids such as `0` are not modelled.
- The user-id type is simplified: `user_id` is modelled as a string, and a user record without `user_id` is not modelled.
