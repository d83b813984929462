/**
  The greedy team balancer of processing/matchmaker.py.

  `CreateBalancedTeams` ranks the roster by total rating (a stable sort,
  highest first) and then walks the ranked list once, appending each player
  to the team whose running attack + defense + intensity load is smallest,
  the lowest team index winning ties.

  The functions `SortByRating`, `Distribute` and `Chosen` are the
  specification of that procedure; the lemmas below state what it promises
  (a partition of the roster, a first-index arg-min choice at every step,
  each team in drawing order and hence in non-increasing rating), and the
  method `CreateBalancedTeams` is proved to compute exactly `BalancedTeams`.
*/
module Matchmaker {

  /** A rated player. Attributes are unbounded integers, as Python ints are. */
  datatype Player = Player(name: string, attack: int, defense: int, intensity: int)
  {
    /** `get_total_rating`: the sorting key. */
    function TotalRating(): int
    {
      attack + defense + intensity
    }
  }

  type Team = seq<Player>

  // ---------------------------------------------------------------------
  // Ranking: sorted(players, key=get_total_rating, reverse=True)
  // ---------------------------------------------------------------------

  /** Every player of `s` is rated at least as high as every later one. */
  predicate NonIncreasing(s: seq<Player>)
  {
    forall i, j :: 0 <= i < j < |s| ==> s[i].TotalRating() >= s[j].TotalRating()
  }

  /** The players of `s` whose total rating is `v`, in their order in `s`. */
  function WithRating(s: seq<Player>, v: int): seq<Player>
  {
    if s == [] then []
    else (if s[0].TotalRating() == v then [s[0]] else []) + WithRating(s[1..], v)
  }

  /**
    Inserts `p` into the ranked list `t` after every player rated strictly
    higher and before every player rated the same or lower, so that `p`,
    which came earlier in the input, stays ahead of its equals.
  */
  function Insert(p: Player, t: seq<Player>): (r: seq<Player>)
    ensures |r| == |t| + 1
    ensures multiset(r) == multiset(t) + multiset{p}
  {
    if t == [] || t[0].TotalRating() <= p.TotalRating() then
      [p] + t
    else
      assert t == [t[0]] + t[1..];
      [t[0]] + Insert(p, t[1..])
  }

  /** Inserting into a ranked list gives a ranked list, headed by `p` or by the old head. */
  lemma {:induction false} InsertNonIncreasing(p: Player, t: seq<Player>)
    requires NonIncreasing(t)
    ensures Insert(p, t)[0] == p || (t != [] && Insert(p, t)[0] == t[0])
    ensures NonIncreasing(Insert(p, t))
  {
    if t == [] || t[0].TotalRating() <= p.TotalRating() {
      ConsNonIncreasing(p, t);
    } else {
      var rest := Insert(p, t[1..]);
      assert Insert(p, t) == [t[0]] + rest;
      InsertNonIncreasing(p, t[1..]);
      assert t[0].TotalRating() >= rest[0].TotalRating() by {
        assert |t| > 1 ==> t[1..][0] == t[1];
      }
      ConsNonIncreasing(t[0], rest);
    }
  }

  /** A player rated at least as high as the head of a ranked list can go in front of it. */
  lemma ConsNonIncreasing(x: Player, s: seq<Player>)
    requires NonIncreasing(s)
    requires s == [] || x.TotalRating() >= s[0].TotalRating()
    ensures NonIncreasing([x] + s)
  {
  }

  /** The rating class of a list with a given head. */
  lemma WithRatingCons(x: Player, s: seq<Player>, v: int)
    ensures WithRating([x] + s, v) == if x.TotalRating() == v then [x] + WithRating(s, v) else WithRating(s, v)
  {
    assert ([x] + s)[0] == x && ([x] + s)[1..] == s;
  }

  /** Inserting `p` in front of its equals keeps every rating class in input order. */
  lemma {:induction false} InsertStable(p: Player, t: seq<Player>, v: int)
    requires NonIncreasing(t)
    ensures WithRating(Insert(p, t), v) == WithRating([p] + t, v)
  {
    if t != [] && t[0].TotalRating() > p.TotalRating() {
      var x, rest := t[0], Insert(p, t[1..]);
      assert Insert(p, t) == [x] + rest;
      assert t == [x] + t[1..];
      InsertStable(p, t[1..], v);
      WithRatingCons(x, rest, v);
      WithRatingCons(x, t[1..], v);
      WithRatingCons(p, t[1..], v);
      WithRatingCons(p, t, v);
    }
  }

  /**
    One step of the ranking: if `rest` is a stable descending sort of `s`,
    inserting `x` into it gives a stable descending sort of `[x] + s`.
  */
  lemma InsertSortStep(x: Player, s: seq<Player>, rest: seq<Player>)
    requires NonIncreasing(rest)
    requires multiset(rest) == multiset(s)
    requires forall v :: WithRating(rest, v) == WithRating(s, v)
    ensures NonIncreasing(Insert(x, rest))
    ensures multiset(Insert(x, rest)) == multiset([x] + s)
    ensures forall v :: WithRating(Insert(x, rest), v) == WithRating([x] + s, v)
  {
    InsertNonIncreasing(x, rest);
    forall v
      ensures WithRating(Insert(x, rest), v) == WithRating([x] + s, v)
    {
      InsertStable(x, rest, v);
      WithRatingCons(x, rest, v);
      WithRatingCons(x, s, v);
    }
  }

  /**
    The stable descending sort of the roster: non-increasing in rating, a
    permutation of the input, and for every rating value the players with
    that rating appear in the same relative order as in the input.
  */
  function SortByRating(s: seq<Player>): (r: seq<Player>)
    ensures |r| == |s|
    ensures NonIncreasing(r)
    ensures multiset(r) == multiset(s)
    ensures forall v :: WithRating(r, v) == WithRating(s, v)
  {
    if s == [] then []
    else
      var rest := SortByRating(s[1..]);
      InsertSortStep(s[0], s[1..], rest);
      assert [s[0]] + s[1..] == s;
      Insert(s[0], rest)
  }

  /** In a ranked list, a rating that occurs is at most the first player's rating. */
  lemma {:induction false} WithRatingBound(s: seq<Player>, v: int)
    requires NonIncreasing(s)
    requires WithRating(s, v) != []
    ensures s != [] && s[0].TotalRating() >= v
  {
    if s[0].TotalRating() != v {
      WithRatingBound(s[1..], v);
    }
  }

  /**
    Two non-empty ranked lists with the same rating classes start with the
    same player and agree on the classes of their tails.
  */
  lemma RankedHeadsAgree(r1: seq<Player>, r2: seq<Player>)
    requires NonIncreasing(r1) && NonIncreasing(r2)
    requires r1 != [] && r2 != []
    requires forall v :: WithRating(r1, v) == WithRating(r2, v)
    ensures r1[0] == r2[0]
    ensures forall v :: WithRating(r1[1..], v) == WithRating(r2[1..], v)
  {
    var x, y := r1[0], r2[0];
    assert WithRating(r1, x.TotalRating()) != [];
    WithRatingBound(r2, x.TotalRating());
    assert WithRating(r2, y.TotalRating()) != [];
    WithRatingBound(r1, y.TotalRating());
    var m := x.TotalRating();
    assert WithRating(r1, m) == [x] + WithRating(r1[1..], m);
    assert WithRating(r2, m) == [y] + WithRating(r2[1..], m);
    assert x == WithRating(r1, m)[0] == WithRating(r2, m)[0] == y;
    forall v
      ensures WithRating(r1[1..], v) == WithRating(r2[1..], v)
    {
      var a1, a2 := WithRating(r1[1..], v), WithRating(r2[1..], v);
      var h := if m == v then [x] else [];
      assert WithRating(r1, v) == h + a1;
      assert WithRating(r2, v) == h + a2;
      assert (h + a1)[|h|..] == a1 && (h + a2)[|h|..] == a2;
    }
  }

  /**
    Two ranked lists with the same players in every rating class, in the
    same order, are the same list.
  */
  lemma {:induction false} RankedByClassesUnique(r1: seq<Player>, r2: seq<Player>)
    requires NonIncreasing(r1) && NonIncreasing(r2)
    requires forall v :: WithRating(r1, v) == WithRating(r2, v)
    ensures r1 == r2
    decreases |r1| + |r2|
  {
    assert (r1 == []) == (r2 == []) by {
      assert r1 != [] ==> WithRating(r1, r1[0].TotalRating()) != [];
      assert r2 != [] ==> WithRating(r2, r2[0].TotalRating()) != [];
    }
    if r1 != [] {
      RankedHeadsAgree(r1, r2);
      RankedByClassesUnique(r1[1..], r2[1..]);
      assert r1 == [r1[0]] + r1[1..] && r2 == [r2[0]] + r2[1..];
    }
  }

  /**
    `SortByRating` is the only stable descending sort: any list that is
    non-increasing in rating and keeps every rating class in input order,
    as Python's `sorted(..., reverse=True)` guarantees, is exactly it.
  */
  lemma SortByRatingIsTheStableSort(s: seq<Player>, r: seq<Player>)
    requires NonIncreasing(r)
    requires forall v :: WithRating(r, v) == WithRating(s, v)
    ensures r == SortByRating(s)
  {
    RankedByClassesUnique(r, SortByRating(s));
  }

  // ---------------------------------------------------------------------
  // Team sums and loads
  // ---------------------------------------------------------------------

  /** Sum of attack over the members of a team (`team_ratings['attack'][t]`). */
  function SumAttack(team: Team): int
  {
    if team == [] then 0 else SumAttack(team[..|team| - 1]) + team[|team| - 1].attack
  }

  /** Sum of defense over the members of a team (`team_ratings['defense'][t]`). */
  function SumDefense(team: Team): int
  {
    if team == [] then 0 else SumDefense(team[..|team| - 1]) + team[|team| - 1].defense
  }

  /** Sum of intensity over the members of a team (`team_ratings['intensity'][t]`). */
  function SumIntensity(team: Team): int
  {
    if team == [] then 0 else SumIntensity(team[..|team| - 1]) + team[|team| - 1].intensity
  }

  /** Sum of the members' total ratings. */
  function SumRating(team: Team): int
  {
    if team == [] then 0 else SumRating(team[..|team| - 1]) + team[|team| - 1].TotalRating()
  }

  /** A team's load: the sum of its three running attribute sums. */
  function Load(team: Team): int
  {
    SumAttack(team) + SumDefense(team) + SumIntensity(team)
  }

  /** `team_totals`: the load of every team, in team order. */
  function Loads(teams: seq<Team>): seq<int>
  {
    seq(|teams|, t requires 0 <= t < |teams| => Load(teams[t]))
  }

  /** Appending a player adds exactly its attributes to the three sums. */
  lemma SumsAppend(team: Team, p: Player)
    ensures SumAttack(team + [p]) == SumAttack(team) + p.attack
    ensures SumDefense(team + [p]) == SumDefense(team) + p.defense
    ensures SumIntensity(team + [p]) == SumIntensity(team) + p.intensity
  {
    assert (team + [p])[..|team|] == team;
  }

  /** A team's load is the sum of its members' total ratings. */
  lemma {:induction false} LoadIsRatingSum(team: Team)
    ensures Load(team) == SumRating(team)
  {
    if team != [] {
      LoadIsRatingSum(team[..|team| - 1]);
    }
  }

  // ---------------------------------------------------------------------
  // Choosing a team: team_totals.index(min(team_totals))
  // ---------------------------------------------------------------------

  /** The first index at which `xs` takes its minimum. */
  function FirstArgMin(xs: seq<int>): (k: nat)
    requires |xs| > 0
    ensures k < |xs|
    ensures forall j :: 0 <= j < |xs| ==> xs[k] <= xs[j]
    ensures forall j :: 0 <= j < k ==> xs[j] > xs[k]
  {
    if |xs| == 1 then 0
    else
      var k := FirstArgMin(xs[1..]);
      if xs[0] <= xs[k + 1] then 0 else k + 1
  }

  // ---------------------------------------------------------------------
  // Allocation
  // ---------------------------------------------------------------------

  /** `[[] for _ in range(num_teams)]` */
  function EmptyTeams(numTeams: int): seq<Team>
  {
    seq(if numTeams > 0 then numTeams else 0, _ => [])
  }

  /** Appends `p` to the first least-loaded team. */
  function Place(teams: seq<Team>, p: Player): seq<Team>
    requires |teams| > 0
  {
    var k := FirstArgMin(Loads(teams));
    teams[k := teams[k] + [p]]
  }

  /** The teams after placing the players of `ps`, in order, into `teams`. */
  function Distribute(teams: seq<Team>, ps: seq<Player>): (r: seq<Team>)
    requires |teams| > 0 || ps == []
    ensures |r| == |teams|
    decreases |ps|
  {
    if ps == [] then teams
    else Place(Distribute(teams, ps[..|ps| - 1]), ps[|ps| - 1])
  }

  /** The index of the team each player of `ps` is appended to. */
  function Chosen(teams: seq<Team>, ps: seq<Player>): (c: seq<nat>)
    requires |teams| > 0 || ps == []
    ensures |c| == |ps|
    ensures forall i :: 0 <= i < |c| ==> c[i] < |teams|
    decreases |ps|
  {
    if ps == [] then []
    else Chosen(teams, ps[..|ps| - 1]) + [FirstArgMin(Loads(Distribute(teams, ps[..|ps| - 1])))]
  }

  /** The players of `ps` whose entry in `c` is `t`, in their order in `ps`. */
  function Pick(ps: seq<Player>, c: seq<nat>, t: nat): seq<Player>
    requires |c| == |ps|
    decreases |ps|
  {
    if ps == [] then []
    else Pick(ps[..|ps| - 1], c[..|c| - 1], t) + (if c[|c| - 1] == t then [ps[|ps| - 1]] else [])
  }

  /** The whole result of `create_balanced_teams`. */
  function BalancedTeams(players: seq<Player>, numTeams: int): seq<Team>
    requires numTeams >= 1 || players == []
  {
    Distribute(EmptyTeams(numTeams), SortByRating(players))
  }

  /** The multiset union of the members of all teams. */
  function Union(teams: seq<Team>): multiset<Player>
  {
    if teams == [] then multiset{} else Union(teams[..|teams| - 1]) + multiset(teams[|teams| - 1])
  }

  // ---------------------------------------------------------------------
  // Properties of the allocation
  // ---------------------------------------------------------------------

  /** Appending `s` to one team adds exactly `s` to the union. */
  lemma {:induction false} UnionAppend(teams: seq<Team>, k: nat, s: seq<Player>)
    requires k < |teams|
    ensures Union(teams[k := teams[k] + s]) == Union(teams) + multiset(s)
  {
    var n := |teams|;
    var u := teams[k := teams[k] + s];
    assert u[..n - 1] == if k == n - 1 then teams[..n - 1] else teams[..n - 1][k := teams[k] + s];
    if k < n - 1 {
      UnionAppend(teams[..n - 1], k, s);
    }
  }

  /** The initial teams hold nobody. */
  lemma {:induction false} UnionEmptyTeams(numTeams: int)
    ensures Union(EmptyTeams(numTeams)) == multiset{}
  {
    if numTeams > 0 {
      assert EmptyTeams(numTeams)[..numTeams - 1] == EmptyTeams(numTeams - 1);
      UnionEmptyTeams(numTeams - 1);
    }
  }

  /** Every placed player ends up in exactly one team: nobody is lost or duplicated. */
  lemma {:induction false} DistributeUnion(teams: seq<Team>, ps: seq<Player>)
    requires |teams| > 0 || ps == []
    ensures Union(Distribute(teams, ps)) == Union(teams) + multiset(ps)
  {
    if ps != [] {
      var n := |ps|;
      var p := ps[n - 1];
      var before := Distribute(teams, ps[..n - 1]);
      var k := FirstArgMin(Loads(before));
      calc {
        Union(Distribute(teams, ps));
        Union(before[k := before[k] + [p]]);
        { UnionAppend(before, k, [p]); }
        Union(before) + multiset([p]);
        { DistributeUnion(teams, ps[..n - 1]); }
        Union(teams) + multiset(ps[..n - 1]) + multiset([p]);
        { assert ps == ps[..n - 1] + [p]; }
        Union(teams) + multiset(ps);
      }
    }
  }

  /**
    Team `t` of the result is its initial members followed by the players
    that were sent to it, in the order they were drawn from `ps`.
  */
  lemma {:induction false} DistributeMembers(teams: seq<Team>, ps: seq<Player>)
    requires |teams| > 0 || ps == []
    ensures forall t :: 0 <= t < |teams| ==>
      Distribute(teams, ps)[t] == teams[t] + Pick(ps, Chosen(teams, ps), t)
  {
    if ps != [] {
      var n := |ps|;
      var p := ps[n - 1];
      var c := Chosen(teams, ps);
      var before := Distribute(teams, ps[..n - 1]);
      var k := FirstArgMin(Loads(before));
      assert c == Chosen(teams, ps[..n - 1]) + [k];
      assert c[..n - 1] == Chosen(teams, ps[..n - 1]) && c[n - 1] == k;
      assert Distribute(teams, ps) == before[k := before[k] + [p]];
      DistributeMembers(teams, ps[..n - 1]);
      forall t | 0 <= t < |teams|
        ensures Distribute(teams, ps)[t] == teams[t] + Pick(ps, c, t)
      {
        var prev := Pick(ps[..n - 1], c[..n - 1], t);
        assert before[t] == teams[t] + prev;
        if k == t {
          assert Pick(ps, c, t) == prev + [p];
          assert (teams[t] + prev) + [p] == teams[t] + (prev + [p]);
        } else {
          assert Pick(ps, c, t) == prev + [];
          assert prev + [] == prev;
        }
      }
    }
  }

  /** The choices made for a prefix of the players are a prefix of the choices. */
  lemma {:induction false} ChosenPrefix(teams: seq<Team>, ps: seq<Player>, j: nat)
    requires |teams| > 0 || ps == []
    requires j <= |ps|
    ensures Chosen(teams, ps[..j]) == Chosen(teams, ps)[..j]
  {
    if j < |ps| {
      var n := |ps|;
      ChosenPrefix(teams, ps[..n - 1], j);
      assert ps[..n - 1][..j] == ps[..j];
    } else {
      assert ps[..j] == ps;
    }
  }

  /**
    Step `i` of the walk: player `ps[i]` is appended to team `c`, every other
    team is unchanged, `c` carries the smallest load at that moment, and every
    team before `c` carries a strictly larger one.
  */
  lemma GreedyStep(teams: seq<Team>, ps: seq<Player>, i: nat)
    requires |teams| > 0
    requires i < |ps|
    ensures var before := Distribute(teams, ps[..i]);
            var c := Chosen(teams, ps)[i];
            && Distribute(teams, ps[..i + 1]) == before[c := before[c] + [ps[i]]]
            && (forall t :: 0 <= t < |teams| ==> Load(before[c]) <= Load(before[t]))
            && (forall t :: 0 <= t < c ==> Load(before[t]) > Load(before[c]))
  {
    var prefix := ps[..i + 1];
    var before := Distribute(teams, ps[..i]);
    var k := FirstArgMin(Loads(before));
    assert prefix[..|prefix| - 1] == ps[..i];
    assert prefix[|prefix| - 1] == ps[i];
    assert Distribute(teams, prefix) == Place(before, ps[i]);
    assert Chosen(teams, prefix) == Chosen(teams, ps[..i]) + [k];
    ChosenPrefix(teams, ps, i + 1);
    assert Chosen(teams, ps)[i] == k;
    assert forall t :: 0 <= t < |teams| ==> Loads(before)[t] == Load(before[t]);
  }

  /** A sub-sequence picked out of a list rated at least `m` is rated at least `m`. */
  lemma {:induction false} PickBound(ps: seq<Player>, c: seq<nat>, t: nat, m: int)
    requires |c| == |ps|
    requires forall i :: 0 <= i < |ps| ==> ps[i].TotalRating() >= m
    ensures forall j :: 0 <= j < |Pick(ps, c, t)| ==> Pick(ps, c, t)[j].TotalRating() >= m
  {
    if ps != [] {
      PickBound(ps[..|ps| - 1], c[..|c| - 1], t, m);
    }
  }

  /** Picking players out of a ranked list in order keeps them ranked. */
  lemma {:induction false} PickNonIncreasing(ps: seq<Player>, c: seq<nat>, t: nat)
    requires |c| == |ps|
    requires NonIncreasing(ps)
    ensures NonIncreasing(Pick(ps, c, t))
  {
    if ps != [] {
      var n := |ps|;
      PickNonIncreasing(ps[..n - 1], c[..n - 1], t);
      PickBound(ps[..n - 1], c[..n - 1], t, ps[n - 1].TotalRating());
    }
  }

  /**
    What `create_balanced_teams` promises: exactly `num_teams` teams, a
    partition of the roster, every team non-increasing in rating and equal
    to the ranked players sent to it, in ranking order.
  */
  lemma BalancedTeamsProperties(players: seq<Player>, numTeams: int)
    requires numTeams >= 1 || players == []
    ensures var r := BalancedTeams(players, numTeams);
            && |r| == (if numTeams > 0 then numTeams else 0)
            && Union(r) == multiset(players)
            && (forall t :: 0 <= t < |r| ==> NonIncreasing(r[t]))
            && (forall t :: 0 <= t < |r| ==>
                  r[t] == Pick(SortByRating(players), Chosen(EmptyTeams(numTeams), SortByRating(players)), t))
  {
    var ranked := SortByRating(players);
    var empty := EmptyTeams(numTeams);
    DistributeUnion(empty, ranked);
    UnionEmptyTeams(numTeams);
    DistributeMembers(empty, ranked);
    forall t | 0 <= t < |empty|
      ensures NonIncreasing(BalancedTeams(players, numTeams)[t])
    {
      PickNonIncreasing(ranked, Chosen(empty, ranked), t);
      assert empty[t] == [];
    }
  }

  /** Appending a player adds its total rating to the team's load. */
  lemma LoadAppend(team: Team, p: Player)
    ensures Load(team + [p]) == Load(team) + p.TotalRating()
  {
    SumsAppend(team, p);
  }

  /** No two teams differ in load by more than `m`. */
  predicate LoadsWithin(teams: seq<Team>, m: int)
  {
    forall t, u :: 0 <= t < |teams| && 0 <= u < |teams| ==> Load(teams[t]) - Load(teams[u]) <= m
  }

  /** Giving a player rated between 0 and `m` to the least-loaded team keeps the spread within `m`. */
  lemma PlaceKeepsBalance(teams: seq<Team>, p: Player, m: int)
    requires |teams| > 0
    requires LoadsWithin(teams, m)
    requires 0 <= p.TotalRating() <= m
    ensures LoadsWithin(Place(teams, p), m)
  {
    var l := Loads(teams);
    var k := FirstArgMin(l);
    var r := Place(teams, p);
    assert r == teams[k := teams[k] + [p]];
    LoadAppend(teams[k], p);
    forall t | 0 <= t < |r|
      ensures Load(r[t]) == l[t] + (if t == k then p.TotalRating() else 0)
    {
    }
    forall t, u | 0 <= t < |r| && 0 <= u < |r|
      ensures Load(r[t]) - Load(r[u]) <= m
    {
      assert l[t] - l[u] <= m;
      assert l[k] <= l[u];
    }
  }

  /** The spread bound holds after every step of the walk. */
  lemma {:induction false} DistributeKeepsBalance(teams: seq<Team>, ps: seq<Player>, m: int)
    requires |teams| > 0
    requires LoadsWithin(teams, m)
    requires forall i :: 0 <= i < |ps| ==> 0 <= ps[i].TotalRating() <= m
    ensures LoadsWithin(Distribute(teams, ps), m)
  {
    if ps != [] {
      var n := |ps|;
      DistributeKeepsBalance(teams, ps[..n - 1], m);
      PlaceKeepsBalance(Distribute(teams, ps[..n - 1]), ps[n - 1], m);
    }
  }

  /**
    The fairness the greedy walk achieves: when every total rating lies
    between 0 and `m`, the loads of any two resulting teams differ by at
    most `m`.
  */
  lemma BalancedTeamsWithinMaxRating(players: seq<Player>, numTeams: int, m: int)
    requires numTeams >= 1
    requires 0 <= m
    requires forall i :: 0 <= i < |players| ==> 0 <= players[i].TotalRating() <= m
    ensures LoadsWithin(BalancedTeams(players, numTeams), m)
  {
    var ranked := SortByRating(players);
    forall i | 0 <= i < |ranked|
      ensures 0 <= ranked[i].TotalRating() <= m
    {
      assert ranked[i] in multiset(players);
      assert ranked[i] in players;
    }
    var e := EmptyTeams(numTeams);
    assert forall t :: 0 <= t < |e| ==> e[t] == [] && Load(e[t]) == 0;
    DistributeKeepsBalance(e, ranked, m);
  }

  /** With no players every team stays empty. */
  lemma EmptyRoster(numTeams: int)
    ensures BalancedTeams([], numTeams) == EmptyTeams(numTeams)
    ensures forall t :: 0 <= t < |BalancedTeams([], numTeams)| ==> BalancedTeams([], numTeams)[t] == []
  {
  }

  /** A one-player team carries that player's total rating as its load. */
  lemma LoadSingle(p: Player)
    ensures Load([p]) == p.TotalRating()
  {
    SumsAppend([], p);
    assert [] + [p] == [p];
  }

  /** Equally rated players keep their input order when ranked. */
  lemma SortTied(a: Player, b: Player, c: Player)
    requires a.TotalRating() == b.TotalRating() == c.TotalRating()
    ensures SortByRating([a, b, c]) == [a, b, c]
  {
    assert SortByRating([c]) == [c] by {
      assert [c][1..] == [];
      assert Insert(c, []) == [c];
    }
    assert SortByRating([b, c]) == [b, c] by {
      assert [b, c][1..] == [c];
      assert Insert(b, [c]) == [b, c];
    }
    assert [a, b, c][1..] == [b, c];
    assert Insert(a, [b, c]) == [a, b, c];
  }

  /** Placing one more player is one more greedy step. */
  lemma DistributeSnoc(teams: seq<Team>, ps: seq<Player>, p: Player)
    requires |teams| > 0
    ensures Distribute(teams, ps + [p]) == Place(Distribute(teams, ps), p)
  {
    assert (ps + [p])[..|ps|] == ps;
  }

  /** Three equally rated players and three teams: one each, to teams 0, 1, 2. */
  lemma ThreeTiedPlayers(a: Player, b: Player, c: Player)
    requires a.TotalRating() == b.TotalRating() == c.TotalRating() > 0
    ensures BalancedTeams([a, b, c], 3) == [[a], [b], [c]]
  {
    SortTied(a, b, c);
    TiedDistribute(a, b, c);
  }

  /** The allocation pass alone, on the ranked list of three tied players. */
  lemma TiedDistribute(a: Player, b: Player, c: Player)
    requires a.TotalRating() == b.TotalRating() == c.TotalRating() > 0
    ensures Distribute(EmptyTeams(3), [a, b, c]) == [[a], [b], [c]]
  {
    var e := EmptyTeams(3);
    assert e == [[], [], []];
    var t1, t2 := [[a], [], []], [[a], [b], []];
    assert Distribute(e, [a]) == t1 by {
      assert Distribute(e, []) == e;
      DistributeSnoc(e, [], a);
      assert [] + [a] == [a];
      TiedStep1(a);
    }
    assert Distribute(e, [a, b]) == t2 by {
      DistributeSnoc(e, [a], b);
      assert [a] + [b] == [a, b];
      TiedStep2(a, b);
    }
    assert Distribute(e, [a, b, c]) == [[a], [b], [c]] by {
      DistributeSnoc(e, [a, b], c);
      assert [a, b] + [c] == [a, b, c];
      TiedStep3(a, b, c);
    }
  }

  /** The tied example, first placement: all loads are 0, so team 0 is chosen. */
  lemma TiedStep1(a: Player)
    ensures Place([[], [], []], a) == [[a], [], []]
  {
    var l := Loads([[], [], []]);
    assert l == [0, 0, 0];
    var k := FirstArgMin(l);
    assert k == 0;
    assert Place([[], [], []], a) == [[], [], []][0 := [] + [a]];
    assert [] + [a] == [a];
  }

  /** The tied example, second placement: team 0 is loaded, so team 1 is the first minimum. */
  lemma TiedStep2(a: Player, b: Player)
    requires a.TotalRating() > 0
    ensures Place([[a], [], []], b) == [[a], [b], []]
  {
    LoadSingle(a);
    var l := Loads([[a], [], []]);
    assert l == [a.TotalRating(), 0, 0];
    var k := FirstArgMin(l);
    assert l[k] <= l[1];
    assert k == 1;
    assert Place([[a], [], []], b) == [[a], [], []][1 := [] + [b]];
    assert [] + [b] == [b];
  }

  /** The tied example, third placement: teams 0 and 1 are loaded, so team 2 is chosen. */
  lemma TiedStep3(a: Player, b: Player, c: Player)
    requires a.TotalRating() > 0 && b.TotalRating() > 0
    ensures Place([[a], [b], []], c) == [[a], [b], [c]]
  {
    LoadSingle(a);
    LoadSingle(b);
    var l := Loads([[a], [b], []]);
    assert l == [a.TotalRating(), b.TotalRating(), 0];
    var k := FirstArgMin(l);
    assert l[k] <= l[2];
    assert k == 2;
    assert Place([[a], [b], []], c) == [[a], [b], []][2 := [] + [c]];
    assert [] + [c] == [c];
  }

  // ---------------------------------------------------------------------
  // The imperative procedure
  // ---------------------------------------------------------------------

  /**
    `team_ratings` agrees with the teams: entry `t` of each of the three
    lists is that attribute's total over the members of team `t`.
  */
  predicate SumsMatch(teams: seq<Team>, attack: seq<int>, defense: seq<int>, intensity: seq<int>)
  {
    && |attack| == |teams| && |defense| == |teams| && |intensity| == |teams|
    && forall t :: 0 <= t < |teams| ==>
         && attack[t] == SumAttack(teams[t])
         && defense[t] == SumDefense(teams[t])
         && intensity[t] == SumIntensity(teams[t])
  }

  /** The in-place increments of the three sums keep them in step with an append. */
  lemma SumsMatchAppend(teams: seq<Team>, attack: seq<int>, defense: seq<int>, intensity: seq<int>, k: nat, p: Player)
    requires SumsMatch(teams, attack, defense, intensity)
    requires k < |teams|
    ensures SumsMatch(teams[k := teams[k] + [p]], attack[k := attack[k] + p.attack],
                      defense[k := defense[k] + p.defense], intensity[k := intensity[k] + p.intensity])
  {
    SumsAppend(teams[k], p);
  }

  /** `team_totals`: the three running sums added up team by team. */
  function TeamTotals(attack: seq<int>, defense: seq<int>, intensity: seq<int>): seq<int>
    requires |attack| == |defense| == |intensity|
  {
    seq(|attack|, t requires 0 <= t < |attack| => attack[t] + defense[t] + intensity[t])
  }

  /** Totals computed from sums that match the teams are the teams' loads. */
  lemma SumsMatchLoads(teams: seq<Team>, attack: seq<int>, defense: seq<int>, intensity: seq<int>)
    requires SumsMatch(teams, attack, defense, intensity)
    ensures TeamTotals(attack, defense, intensity) == Loads(teams)
  {
  }

  /**
    The allocation loop of `create_balanced_teams` over the ranked roster.
    The teams and the three per-team running sums (`team_ratings`) are lists
    updated one entry at a time; at each step the loads are recomputed from
    the sums and the player goes to the first least-loaded team.
  */
  method Allocate(ranked: seq<Player>, numTeams: int) returns (teams: seq<Team>)
    requires numTeams >= 1 || ranked == []
    ensures teams == Distribute(EmptyTeams(numTeams), ranked)
  {
    var n := if numTeams > 0 then numTeams else 0;
    teams := seq(n, _ => []);
    var attack := seq(n, _ => 0);
    var defense := seq(n, _ => 0);
    var intensity := seq(n, _ => 0);
    for i := 0 to |ranked|
      invariant teams == Distribute(EmptyTeams(numTeams), ranked[..i])
      invariant SumsMatch(teams, attack, defense, intensity)
    {
      var player := ranked[i];
      var totals := TeamTotals(attack, defense, intensity);
      SumsMatchLoads(teams, attack, defense, intensity);
      var target := FirstArgMin(totals);
      SumsMatchAppend(teams, attack, defense, intensity, target, player);
      DistributeSnoc(EmptyTeams(numTeams), ranked[..i], player);
      teams := teams[target := teams[target] + [player]];
      attack := attack[target := attack[target] + player.attack];
      defense := defense[target := defense[target] + player.defense];
      intensity := intensity[target := intensity[target] + player.intensity];
      assert ranked[..i] + [player] == ranked[..i + 1];
    }
    assert ranked[..|ranked|] == ranked;
  }

  /**
    `create_balanced_teams`: rank the roster, then allocate it. The result
    has one team per requested team, is a partition of the roster, and every
    team is in non-increasing rating order.
  */
  method CreateBalancedTeams(players: seq<Player>, numTeams: int := 3) returns (teams: seq<Team>)
    requires numTeams >= 1 || players == []
    ensures teams == BalancedTeams(players, numTeams)
    ensures |teams| == if numTeams > 0 then numTeams else 0
    ensures Union(teams) == multiset(players)
    ensures forall t :: 0 <= t < |teams| ==> NonIncreasing(teams[t])
    ensures players == [] ==> forall t :: 0 <= t < |teams| ==> teams[t] == []
  {
    var ranked := SortByRating(players);
    teams := Allocate(ranked, numTeams);
    BalancedTeamsProperties(players, numTeams);
  }
}
