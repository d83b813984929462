# Greedy football team balancer, modelled in Dafny

This project models the core of the football matchmaker in
`processing/matchmaker.py`: a `Player` with three integer attributes
(attack, defense, intensity) and the function `create_balanced_teams`,
which splits a roster into `num_teams` teams (3 by default).

The function works in two steps, and the model keeps both:

1. **Ranking.** The roster is sorted by total rating
   (`attack + defense + intensity`), highest first. The sort is stable, so
   equally rated players keep their input order. This is `SortByRating`, a
   stable insertion sort. Its contract says the result is non-increasing in
   rating, is a permutation of the input, and keeps every rating class in
   input order. `SortByRatingIsTheStableSort` proves that any list with
   these properties is exactly `SortByRating`'s result. So the model agrees
   with Python's `sorted(..., reverse=True)` whatever algorithm Python uses.
2. **Allocation.** One pass over the ranked list keeps the teams and three
   per-team running sums. Each player goes to the team whose load (the sum
   of its three sums) is smallest; ties go to the lowest team index, as
   `team_totals.index(min(team_totals))` gives. The method `Allocate` runs
   this loop. Its invariants say that the three sums always equal the
   attribute totals of the current members, and that the teams so far are
   `Distribute` applied to the players seen so far. `Distribute` is the pure
   specification of the pass. `Chosen` gives the team index picked at each
   step, and `Pick` gives the players that went to one team, in drawing
   order.

`CreateBalancedTeams` composes the two steps. It is proved to return
`BalancedTeams(players, numTeams)` with exactly `num_teams` teams. The
teams are a partition of the roster (their multiset union is the roster's
multiset), and each team is non-increasing in rating. The lemmas state the
rest: each step's choice is the first arg-min of the loads (`GreedyStep`),
each team holds the players sent to it in drawing order
(`DistributeMembers`), and the worked tie example (`ThreeTiedPlayers`)
holds. `BalancedTeamsWithinMaxRating` states a fairness bound the greedy
pass achieves: when every total rating lies in `0..m`, any two teams' loads
differ by at most `m`.

All arithmetic is on unbounded `int`, as Python's `int` is, so there is no
overflow to model. The code uses a fixed team count: it puts no cap on how
many players a team may hold and raises no error types of its own. A
non-positive team count with a non-empty roster makes `min([])` raise
`ValueError`. The model excludes that case with the precondition
`numTeams >= 1 || players == []`. With an empty roster and a non-positive
count, the code returns an empty list of teams, and so does the model.
The comment at processing/matchmaker.py:27 speaks of a snake draft, but the
loop is the greedy least-load pass described above, and the model follows the
loop.

## Model

| member | source | states |
|---|---|---|
| Matchmaker.Player.TotalRating | processing/matchmaker.py:12-13 | defined as `attack + defense + intensity`, the sort key and the unit of a team's load |
| Matchmaker.EmptyTeams | processing/matchmaker.py:20 | defined as `num_teams` empty teams (none when the count is not positive), the state before the first placement |
| Matchmaker.Place | processing/matchmaker.py:36-39 | defined as one loop iteration on the teams: append the player to the first team of least load, leaving the others unchanged (the load is computed from the members, so the three sums of lines 40-42 are not needed here) |
| Matchmaker.TeamTotals | processing/matchmaker.py:30-34 | defined as `team_totals`: per team, the attack, defense and intensity sums added up |
| Matchmaker.BalancedTeams | processing/matchmaker.py:15-44 | defined as the whole of `create_balanced_teams`: the greedy pass over the ranked roster, starting from the empty teams |
| Matchmaker.LoadIsRatingSum | processing/matchmaker.py:12-13 | a team's load (the sum of its attack, defense and intensity totals) equals the sum of its members' `get_total_rating` |
| Matchmaker.LoadAppend | processing/matchmaker.py:39-42 | appending a player raises the team's load by exactly that player's total rating |
| Matchmaker.Insert | processing/matchmaker.py:17 | inserting a player gives a list one longer holding exactly one more copy of that player |
| Matchmaker.InsertNonIncreasing | processing/matchmaker.py:17 | inserting into a ranked list gives a ranked list, headed by the new player or by the old head |
| Matchmaker.InsertStable | processing/matchmaker.py:17 | the inserted player lands ahead of the later players with its own rating, so every rating class keeps input order |
| Matchmaker.InsertSortStep | processing/matchmaker.py:17 | inserting the next input player into a stable descending sort of the rest gives a stable descending sort of the whole |
| Matchmaker.SortByRating | processing/matchmaker.py:17 | the ranked roster has the same length, is non-increasing in total rating, is a permutation of the input, and keeps every rating class in input order (stability) |
| Matchmaker.RankedByClassesUnique | processing/matchmaker.py:17 | two non-increasing lists with the same players in every rating class, in the same order, are equal |
| Matchmaker.SortByRatingIsTheStableSort | processing/matchmaker.py:17 | any non-increasing list that keeps the input's rating classes in order is exactly the ranked roster, so the stable descending sort is unique |
| Matchmaker.SumsAppend | processing/matchmaker.py:40-42 | appending a player raises the team's attack, defense and intensity totals by that player's attributes |
| Matchmaker.SumsMatchAppend | processing/matchmaker.py:39-42 | the three in-place increments of `team_ratings` keep every entry equal to its attribute's total over the team after the append |
| Matchmaker.SumsMatchLoads | processing/matchmaker.py:30-34 | when `team_ratings` matches the teams, the `team_totals` computed from it are exactly the teams' loads |
| Matchmaker.FirstArgMin | processing/matchmaker.py:36 | the chosen index is in range, its load is no larger than any other, and every earlier index has a strictly larger load (the first minimum) |
| Matchmaker.Distribute | processing/matchmaker.py:28-42 | placing players one at a time never adds or removes a team |
| Matchmaker.Chosen | processing/matchmaker.py:36-39 | one team index per placed player, each a valid team index |
| Matchmaker.UnionEmptyTeams | processing/matchmaker.py:20 | the initial teams hold nobody |
| Matchmaker.UnionAppend | processing/matchmaker.py:39 | appending to one team adds exactly the appended players to the union of all teams |
| Matchmaker.DistributeUnion | processing/matchmaker.py:28-39 | after the pass, the union of all teams is the initial union plus every placed player, each exactly once |
| Matchmaker.DistributeMembers | processing/matchmaker.py:28-39 | each team is its initial members followed by exactly the players sent to it, in the order they were drawn |
| Matchmaker.ChosenPrefix | processing/matchmaker.py:28-36 | the choices made for the first `j` players do not depend on the later ones |
| Matchmaker.GreedyStep | processing/matchmaker.py:30-42 | at step `i`, player `i` is appended to team `c` and no other team changes; `c` has the least load at that moment and every lower-indexed team has a strictly larger load |
| Matchmaker.PickNonIncreasing | processing/matchmaker.py:28-39 | players taken in order from a ranked list stay ranked |
| Matchmaker.BalancedTeamsProperties | processing/matchmaker.py:15-44 | the result has `num_teams` teams (none if the count is not positive), is a partition of the roster, and every team is non-increasing and is exactly the ranked players sent to it, in order |
| Matchmaker.EmptyRoster | processing/matchmaker.py:20-28 | an empty roster gives the initial empty teams |
| Matchmaker.DistributeSnoc | processing/matchmaker.py:28-42 | handling one more player is one more greedy placement |
| Matchmaker.SortTied | processing/matchmaker.py:17 | three equally rated players keep their input order when ranked |
| Matchmaker.TiedDistribute | processing/matchmaker.py:28-42 | the pass over three tied, positively rated players fills teams 0, 1 and 2 in turn |
| Matchmaker.ThreeTiedPlayers | processing/matchmaker.py:30-36 | three equally and positively rated players with three teams go to teams 0, 1 and 2 |
| Matchmaker.PlaceKeepsBalance | processing/matchmaker.py:36-42 | giving a player rated in `0..m` to the least-loaded team keeps every pair of loads within `m` |
| Matchmaker.DistributeKeepsBalance | processing/matchmaker.py:28-42 | the load spread stays within `m` after every step when all ratings lie in `0..m` |
| Matchmaker.BalancedTeamsWithinMaxRating | processing/matchmaker.py:15-44 | when every total rating lies in `0..m`, any two resulting teams differ in load by at most `m` |
| Matchmaker.Allocate | processing/matchmaker.py:20-42 | the allocation loop returns `Distribute` of the initial empty teams over the ranked roster; its invariant keeps the three running sums equal to the members' attribute totals |
| Matchmaker.CreateBalancedTeams | processing/matchmaker.py:15-44 | returns `BalancedTeams(players, numTeams)`: `num_teams` teams, a partition of the roster, every team non-increasing in rating, all teams empty for an empty roster |

## Left out

- `main` (processing/matchmaker.py:47-73): it builds random sample players with `random.randint` and prints the teams. That is randomness and I/O, not part of the balancer.
- The `if __name__ == "__main__"` entry point (processing/matchmaker.py:75-76), for the same reason.
- A non-positive `num_teams` with a non-empty roster: Python raises `ValueError` from `min([])`. The model rules that case out with a precondition instead of modelling the exception.
- Object identity: Python appends references to the caller's `Player` objects to the teams. The model treats players as immutable values, which is enough because the balancer never changes a player.
- In-place list updates: the team lists and the `team_ratings` lists that Python updates in place are sequence variables in `Allocate`, reassigned one entry at a time. Nothing else holds a reference to them during the call.
- Timsort: the ranking is modelled as an insertion sort, not Python's Timsort. `SortByRatingIsTheStableSort` shows that every stable descending sort gives the same list, so the algorithm's choice does not matter.
- Where the players come from: `create_balanced_teams` receives `Player` objects whose attributes are already integers, so the model starts from `Player` values.
