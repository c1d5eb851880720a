/**
 The battle-royale fight (`Cogs/battleroyale.py`, command `battleroyale`):
 rounds in which a random number of participants are targeted; each target
 kills itself, is killed by another participant, or blocks the attack. Kills
 score points in `kill_map`, with bonuses for the weapon, for kill streaks and
 for ending someone else's streak.

 Every random choice of the source is an explicit input: `random.choice` of the
 target is an index into the roster, `random.uniform(0, 1)` is a `real`, the
 killer re-draw loop is an index into the roster without the target (the loop
 ends with exactly one of those), and an exotic weapon is the token drawn.
 Probabilities are exact reals rather than floats.
 */
module Arena {
  import opened Wrappers
  import opened Dicts

  /** The configured probabilities `p_suicide`, `p_block`, `p_bomb_or_melee`
      and `p_exotic`. The source does not validate them. */
  datatype Odds = Odds(suicide: real, block: real, bombOrMelee: real, exotic: real)

  datatype Weapon =
    | Bomb
    | Melee
    | Exotic(token: string)  // one of the configured exotic weapons
    | Own(token: string)     // the killer's weapon for the whole fight

  /** The bonus notes appended to a kill announcement, in order. */
  datatype Note =
    | BombBonus
    | MeleeBonus
    | ExoticBonus
    | StreakBonus(streak: nat)
    | ShutdownBonus

  datatype Event =
    | Suicide(victim: string)
    | Block(attacker: string, defender: string)
    | Kill(killer: string, victim: string, weapon: Weapon, notes: seq<Note>)

  /** The local state of the fight loop. */
  datatype Fight = Fight(
    alive: seq<string>,            // `dim_participants`
    kills: Dict<int>,              // `kill_map`, a `defaultdict(int)`
    lastKiller: string,            // `last_killer`, '' before the first kill
    streak: nat,                   // `streak`
    longest: nat,                  // `local_longest_streak`
    longestHolder: Option<string>) // `local_longest_streak_user`

  /** The random inputs of one elimination. */
  datatype Draw = Draw(target: nat, event: real, killer: nat, exotic: string)

  /** The weapon of each participant for the whole fight: their custom
      weapon when they have one, otherwise the emote `pick(p)` drawn for them. */
  function AssignWeapons(participants: seq<string>, custom: map<string, string>, pick: string -> string): (w: map<string, string>)
    ensures forall p :: p in w <==> p in participants
    ensures forall p :: p in participants && p in custom ==> w[p] == custom[p]
    ensures forall p :: p in participants && p !in custom ==> w[p] == pick(p)
  {
    map p | p in participants :: if p in custom then custom[p] else pick(p)
  }

  /** The state before the first round. */
  function Start(participants: seq<string>): Fight
  {
    Fight(participants, [], "", 0, 0, None)
  }

  // ---------------------------------------------------------------------------
  // Round sizing
  // ---------------------------------------------------------------------------

  /** `math.ceil(n / 3)`. */
  function MaxKilled(n: nat): nat
  {
    (n + 2) / 3
  }

  /** The running sum `cum_prob` after outcome `k` of the list
      `[0.5, 0.5/(m-1), ..., 0.5/(m-1)]`, with `cum(0) = 0`. */
  function Cum(k: nat, m: nat): real
    requires m >= 2
  {
    if k == 0 then 0.0 else 0.5 + (k - 1) as real * (0.5 / (m - 1) as real)
  }

  /** The scan of the `zip(amnt_list, amnt_probabilities)` loop from outcome
      `k` on: the first outcome whose running sum exceeds `x`, or the last
      outcome when the loop runs out. */
  function FirstAbove(x: real, m: nat, k: nat): (r: nat)
    requires m >= 2 && 1 <= k <= m
    ensures k <= r <= m
    decreases m - k
  {
    if x < Cum(k, m) || k == m then k else FirstAbove(x, m, k + 1)
  }

  /** How many eliminations a round schedules among `n` participants, `x`
      being the `random.uniform(0, 1)` draw. */
  function RoundSize(n: nat, x: real): (r: nat)
    ensures n <= 3 ==> r == 1
    ensures n > 3 ==> 1 <= r <= MaxKilled(n) && MaxKilled(n) >= 2
    ensures x < 0.5 ==> r == 1
  {
    if n > 3 then FirstAbove(x, MaxKilled(n), 1) else 1
  }

  lemma CumStrictlyIncreases(k: nat, m: nat)
    requires m >= 2 && k < m
    ensures Cum(k, m) < Cum(k + 1, m)
  {
    var step := 0.5 / (m - 1) as real;
    assert step > 0.0;
    if k > 0 {
      assert Cum(k + 1, m) == Cum(k, m) + step;
    }
  }

  lemma CumMonotone(j: nat, k: nat, m: nat)
    requires m >= 2 && j <= k <= m
    ensures Cum(j, m) <= Cum(k, m)
    decreases k - j
  {
    if j < k {
      CumStrictlyIncreases(j, m);
      CumMonotone(j + 1, k, m);
    }
  }

  lemma CumOfLast(m: nat)
    requires m >= 2
    ensures Cum(m, m) == 1.0
  {
    var step := 0.5 / (m - 1) as real;
    assert (m - 1) as real * step == 0.5;
  }

  /** The scan from `k` stops at outcome `r` exactly when `x` lies in the
      bucket `[cum(r-1), cum(r))`, the last bucket taking everything above. */
  lemma {:induction false} FirstAboveIsBucket(x: real, m: nat, k: nat, r: nat)
    requires m >= 2 && 1 <= k <= r <= m
    requires x >= Cum(k - 1, m)
    ensures FirstAbove(x, m, k) == r <==> Cum(r - 1, m) <= x && (x < Cum(r, m) || r == m)
    decreases m - k
  {
    if k < r {
      if x < Cum(k, m) {
        CumMonotone(k, r - 1, m);
      } else {
        FirstAboveIsBucket(x, m, k + 1, r);
      }
    } else if x >= Cum(k, m) && k < m {
      FirstAboveStaysAbove(x, m, k + 1);
    }
  }

  lemma {:induction false} FirstAboveStaysAbove(x: real, m: nat, k: nat)
    requires m >= 2 && 1 <= k <= m
    ensures FirstAbove(x, m, k) >= k
  {
  }

  /** Inverse-CDF sampling: among more than three participants, outcome 1 is
      chosen for draws below 0.5 and outcome `k` in `2..ceil(n/3)` for draws
      in `[0.5 + (k-2)·0.5/(m-1), 0.5 + (k-1)·0.5/(m-1))`, so each of those
      outcomes owns a slice of width `0.5/(m-1)`; a draw of 1 takes the last
      outcome. */
  lemma RoundSizeIsInverseCdf(n: nat, x: real, k: nat)
    requires n > 3 && x >= 0.0
    requires 1 <= k <= MaxKilled(n)
    ensures RoundSize(n, x) == k <==>
      Cum(k - 1, MaxKilled(n)) <= x && (x < Cum(k, MaxKilled(n)) || k == MaxKilled(n))
    ensures k >= 2 ==> Cum(k, MaxKilled(n)) - Cum(k - 1, MaxKilled(n)) == 0.5 / (MaxKilled(n) - 1) as real
    ensures Cum(MaxKilled(n), MaxKilled(n)) == 1.0
  {
    FirstAboveIsBucket(x, MaxKilled(n), 1, k);
    CumOfLast(MaxKilled(n));
  }

  /** A round never schedules as many eliminations as there are
      participants: `ceil(n/3) <= n - 1` for `n >= 2`. */
  lemma {:induction false} RoundSizeLeavesOne(n: nat, x: real)
    requires n >= 2
    ensures RoundSize(n, x) <= n - 1
  {
    if n > 3 {
      assert MaxKilled(n) <= n - 1;
    }
  }

  // ---------------------------------------------------------------------------
  // One elimination
  // ---------------------------------------------------------------------------

  /** `xs.pop(xs.index(x))`: removes the first occurrence of `x`. */
  function Remove(xs: seq<string>, x: string): (r: seq<string>)
    requires x in xs
    ensures |r| == |xs| - 1
    ensures forall y :: y in r ==> y in xs
  {
    if xs[0] == x then xs[1..] else [xs[0]] + Remove(xs[1..], x)
  }

  /** No name occurs twice. */
  predicate Distinct(xs: seq<string>)
  {
    forall i, j :: 0 <= i < j < |xs| ==> xs[i] != xs[j]
  }

  /** Removing a name from a roster without repeats drops exactly that name. */
  lemma {:induction false} RemoveFromDistinct(xs: seq<string>, x: string)
    requires Distinct(xs) && x in xs
    ensures Distinct(Remove(xs, x))
    ensures x !in Remove(xs, x)
    ensures forall y :: y != x ==> (y in Remove(xs, x) <==> y in xs)
  {
    assert forall i :: 1 <= i < |xs| ==> xs[1..][i - 1] == xs[i];
    if xs[0] != x {
      RemoveFromDistinct(xs[1..], x);
      var rest := Remove(xs[1..], x);
      assert xs[0] !in xs[1..];
      assert Remove(xs, x) == [xs[0]] + rest;
      assert forall i :: 1 <= i < |[xs[0]] + rest| ==> ([xs[0]] + rest)[i] == rest[i - 1];
    } else {
      assert xs == [xs[0]] + xs[1..];
    }
  }

  /** `event < 1 - p_block + p_suicide`: the attack is not blocked. */
  function KillThreshold(o: Odds): real
  {
    1.0 - o.block + o.suicide
  }

  /** The weapon of a kill, its bonus and its note. */
  function KillWeapon(o: Odds, event: real, own: string, exotic: string): (Weapon, nat, seq<Note>)
  {
    if event < o.suicide + o.bombOrMelee then
      if event < BombThreshold(o) then (Bomb, 1, [BombBonus]) else (Melee, 1, [MeleeBonus])
    else if event < o.suicide + o.bombOrMelee + o.exotic then (Exotic(exotic), 10, [ExoticBonus])
    else (Own(own), 0, [])
  }

  /** The boundary between bomb and melee kills: half of the sum
      `p_suicide + p_bomb_or_melee`. It lies inside the bomb-or-melee range
      `[p_suicide, p_suicide + p_bomb_or_melee)` only when the suicide
      probability is at most the bomb-or-melee probability. */
  function BombThreshold(o: Odds): (t: real)
    ensures o.suicide <= t <==> o.suicide <= o.bombOrMelee
    ensures o.suicide + o.bombOrMelee >= 0.0 ==> t <= o.suicide + o.bombOrMelee
  {
    (o.suicide + o.bombOrMelee) / 2.0
  }

  /** The bomb threshold is the midpoint of the bomb-or-melee range only when
      the suicide probability is 0; otherwise bombs get less than half of
      that range, and none of it once the suicide probability reaches the
      bomb-or-melee probability. */
  lemma BombShare(o: Odds, event: real)
    requires o.suicide <= event
    ensures BombThreshold(o) == o.suicide + o.bombOrMelee / 2.0 <==> o.suicide == 0.0
    ensures o.suicide > 0.0 && o.bombOrMelee > 0.0 ==> BombThreshold(o) - o.suicide < o.bombOrMelee / 2.0
    ensures o.suicide >= o.bombOrMelee ==> KillWeapon(o, event, "", "").0 != Bomb
  {
  }

  /** Credits a kill of `victim` by `killer` with the weapon bonus already
      decided: the streak continues when the killer is the last killer,
      otherwise a shutdown bonus is paid for killing the holder of a streak
      longer than one and a new streak of 1 begins. */
  function Credit(f: Fight, killer: string, victim: string, weaponBonus: nat, notes: seq<Note>): (Fight, seq<Note>)
  {
    var kills := AddTo(f.kills, killer, 1 + weaponBonus + StreakGain(f, killer, victim));
    if f.lastKiller == killer then
      var s := f.streak + 1;
      if s > f.longest then (f.(kills := kills, streak := s, longest := s, longestHolder := Some(killer)), notes + [StreakBonus(s)])
      else (f.(kills := kills, streak := s), notes + [StreakBonus(s)])
    else
      (f.(kills := kills, streak := 1, lastKiller := killer),
       notes + (if IsShutdown(f, victim) then [ShutdownBonus] else []))
  }

  /** Killing the holder of a streak longer than one. */
  predicate IsShutdown(f: Fight, victim: string)
  {
    f.streak > 1 && victim == f.lastKiller
  }

  /** The streak or shutdown part of a kill's points. */
  function StreakGain(f: Fight, killer: string, victim: string): nat
  {
    if f.lastKiller == killer then f.streak + 1
    else if IsShutdown(f, victim) then 1
    else 0
  }

  /** The target of a draw. */
  function Target(f: Fight, d: Draw): string
    requires f.alive != []
  {
    f.alive[d.target % |f.alive|]
  }

  /** The killer of a draw: one of the participants other than the target. */
  function Killer(f: Fight, d: Draw): (k: string)
    requires |f.alive| >= 2
    ensures k in f.alive
  {
    var others := Remove(f.alive, Target(f, d));
    assert others[d.killer % |others|] in others;
    others[d.killer % |others|]
  }

  /** A kill of `victim` by `killer`, whose own weapon is `own`. */
  function KillBy(f: Fight, o: Odds, own: string, d: Draw, killer: string, victim: string): (r: (Fight, Event))
    ensures r.0.alive == f.alive && r.1.Kill?
  {
    var w := KillWeapon(o, d.event, own, d.exotic);
    var c := Credit(f, killer, victim, w.1, w.2);
    (c.0, Kill(killer, victim, w.0, c.1))
  }

  /** One pass of the elimination loop body. */
  function Eliminate(f: Fight, o: Odds, weapons: map<string, string>, d: Draw): (r: (Fight, Event))
    requires f.alive != []
    requires d.event >= o.suicide ==> |f.alive| >= 2
    requires forall p :: p in f.alive ==> p in weapons
    ensures |r.0.alive| == if r.1.Block? then |f.alive| else |f.alive| - 1
    ensures forall p :: p in r.0.alive ==> p in f.alive
  {
    var target := Target(f, d);
    if d.event < o.suicide then
      (f.(alive := Remove(f.alive, target)), Suicide(target))
    else if d.event < KillThreshold(o) then
      var killer := Killer(f, d);
      KillBy(f.(alive := Remove(f.alive, target)), o, weapons[killer], d, killer, target)
    else
      (f, Block(Killer(f, d), target))
  }

  // ---------------------------------------------------------------------------
  // Reachable states
  // ---------------------------------------------------------------------------

  /** What holds of every state of a fight among `roster`: the alive names
      are distinct, non-empty members of the roster; only roster members
      hold kill points, always at least 1; the streak is zero exactly before
      the first kill; and a longest-streak record, once set, is at least 2. */
  predicate Valid(f: Fight, roster: seq<string>)
  {
    && AliveWithin(f.alive, roster)
    && ScoresWithin(f.kills, roster)
    && StreakWithin(f, roster)
  }

  /** The alive names are distinct, non-empty members of the roster. */
  predicate AliveWithin(alive: seq<string>, roster: seq<string>)
  {
    && Distinct(alive)
    && forall p :: p in alive ==> p in roster && p != ""
  }

  /** The streak is zero exactly before the first kill, and a longest-streak
      record, once set, is at least 2 and held by a roster member. */
  predicate StreakWithin(f: Fight, roster: seq<string>)
  {
    && (f.streak == 0 <==> f.lastKiller == "")
    && (f.lastKiller != "" ==> f.lastKiller in roster)
    && (f.longest == 0 <==> f.longestHolder.None?)
    && (f.longest != 0 ==> f.longest >= 2 && f.longestHolder.value in roster)
  }

  /** A fight starts valid when the participants are distinct, non-empty
      names (Discord user names). */
  lemma StartIsValid(participants: seq<string>)
    requires Distinct(participants)
    requires forall p :: p in participants ==> p != ""
    ensures Valid(Start(participants), participants)
  {
  }

  /** Only roster members hold kill points, each at least 1. */
  predicate ScoresWithin(kills: Dict<int>, roster: seq<string>)
  {
    && DistinctKeys(kills)
    && forall p :: p in ToMap(kills) ==> p in roster && ToMap(kills)[p] >= 1
  }

  lemma AddToKeepsScores(d: Dict<int>, k: string, n: int, roster: seq<string>)
    requires ScoresWithin(d, roster)
    requires k in roster && n >= 1
    ensures ScoresWithin(AddTo(d, k, n), roster)
  {
    PutKeepsDistinct(d, k, GetOrZero(d, k) + n);
    AddToIsMapUpdate(d, k, n);
  }

  /** A suicide removes the target from the roster and changes nothing
      else: not the kill points, not the streak, not the last killer. */
  lemma SuicideRemovesOnlyTarget(f: Fight, o: Odds, weapons: map<string, string>, d: Draw)
    requires f.alive != []
    requires forall p :: p in f.alive ==> p in weapons
    requires d.event < o.suicide
    ensures Eliminate(f, o, weapons, d) == (f.(alive := Remove(f.alive, Target(f, d))), Suicide(Target(f, d)))
  {
  }

  /** A blocked attack changes nothing at all. */
  lemma BlockChangesNothing(f: Fight, o: Odds, weapons: map<string, string>, d: Draw)
    requires |f.alive| >= 2
    requires forall p :: p in f.alive ==> p in weapons
    requires o.suicide <= d.event && d.event >= KillThreshold(o)
    ensures Eliminate(f, o, weapons, d) == (f, Block(Killer(f, d), Target(f, d)))
  {
  }

  /** The killer of a draw is alive and is not the target. */
  lemma KillerIsAnother(f: Fight, d: Draw)
    requires |f.alive| >= 2 && Distinct(f.alive)
    ensures Killer(f, d) in f.alive && Killer(f, d) != Target(f, d)
  {
    var others := Remove(f.alive, Target(f, d));
    RemoveFromDistinct(f.alive, Target(f, d));
    assert others[d.killer % |others|] in others;
  }

  /** The points of a kill go to the killer alone: 1 for the kill, the
      weapon bonus, and the new streak length for a continued streak or 1
      for a shutdown. */
  lemma CreditScores(f: Fight, killer: string, victim: string, weaponBonus: nat, notes: seq<Note>)
    ensures var f' := Credit(f, killer, victim, weaponBonus, notes).0;
      var streakBonus :=
        if killer == f.lastKiller then f.streak + 1
        else if f.streak > 1 && victim == f.lastKiller then 1
        else 0;
      && GetOrZero(f'.kills, killer) == GetOrZero(f.kills, killer) + 1 + weaponBonus + streakBonus
      && (forall p :: p != killer ==> GetOrZero(f'.kills, p) == GetOrZero(f.kills, p))
      && f'.alive == f.alive
  {
    hide AddTo;
    var f' := Credit(f, killer, victim, weaponBonus, notes).0;
    var n := 1 + weaponBonus + StreakGain(f, killer, victim);
    CreditKills(f, killer, victim, weaponBonus, notes);
    assert f'.kills == AddTo(f.kills, killer, n);
    AddToScores(f.kills, killer, n);
    assert GetOrZero(f'.kills, killer) == GetOrZero(f.kills, killer) + n;
    assert forall p :: p != killer ==> GetOrZero(f'.kills, p) == GetOrZero(f.kills, p);
  }

  lemma CreditKills(f: Fight, killer: string, victim: string, weaponBonus: nat, notes: seq<Note>)
    ensures Credit(f, killer, victim, weaponBonus, notes).0.kills == AddTo(f.kills, killer, 1 + weaponBonus + StreakGain(f, killer, victim))
    ensures Credit(f, killer, victim, weaponBonus, notes).0.alive == f.alive
  {
    hide AddTo;
  }

  /** The source adds a kill's points to `kill_map[killer]` in up to three
      steps: 1 for the kill, then the weapon bonus when there is one, then
      the streak or shutdown bonus when there is one. Crediting them as one
      sum leaves the same kill map. */
  lemma SeparateIncrements(f: Fight, killer: string, victim: string, weaponBonus: nat, notes: seq<Note>)
    ensures var gain := StreakGain(f, killer, victim);
      var d1 := AddTo(f.kills, killer, 1);
      var d2 := if weaponBonus > 0 then AddTo(d1, killer, weaponBonus) else d1;
      var d3 := if gain > 0 then AddTo(d2, killer, gain) else d2;
      Credit(f, killer, victim, weaponBonus, notes).0.kills == d3
  {
    hide AddTo, Credit;
    var gain := StreakGain(f, killer, victim);
    var d1 := AddTo(f.kills, killer, 1);
    var d2 := if weaponBonus > 0 then AddTo(d1, killer, weaponBonus) else d1;
    AddToTwice(f.kills, killer, 1, weaponBonus);
    assert d2 == AddTo(f.kills, killer, 1 + weaponBonus);
    AddToTwice(f.kills, killer, 1 + weaponBonus, gain);
    CreditKills(f, killer, victim, weaponBonus, notes);
  }

  /** The bonus of each weapon range: 1 for a bomb or melee kill, 10 for an
      exotic weapon, nothing for the killer's own weapon. */
  function WeaponBonus(o: Odds, event: real): nat
  {
    if event < o.suicide + o.bombOrMelee then 1
    else if event < o.suicide + o.bombOrMelee + o.exotic then 10
    else 0
  }

  /** A kill removes exactly the target and credits only the killer, with 1
      for the kill, the weapon bonus, and the streak or shutdown bonus. */
  lemma KillScoring(f: Fight, o: Odds, weapons: map<string, string>, d: Draw)
    requires |f.alive| >= 2 && Distinct(f.alive)
    requires forall p :: p in f.alive ==> p in weapons
    requires o.suicide <= d.event < KillThreshold(o)
    ensures var out := Eliminate(f, o, weapons, d); var f' := out.0; var e := out.1;
      var killer := Killer(f, d);
      var target := Target(f, d);
      var streakBonus :=
        if killer == f.lastKiller then f.streak + 1
        else if f.streak > 1 && target == f.lastKiller then 1
        else 0;
      && e.Kill? && e.killer == killer && e.victim == target
      && killer in f.alive && killer != target
      && f'.alive == Remove(f.alive, target)
      && target !in f'.alive
      && (forall p :: p != target ==> (p in f'.alive <==> p in f.alive))
      && GetOrZero(f'.kills, killer) == GetOrZero(f.kills, killer) + 1 + WeaponBonus(o, d.event) + streakBonus
      && (forall p :: p != killer ==> GetOrZero(f'.kills, p) == GetOrZero(f.kills, p))
  {
    hide Credit, RoundSize;
    var killer := Killer(f, d);
    var target := Target(f, d);
    KillerIsAnother(f, d);
    RemoveFromDistinct(f.alive, target);
    var f0 := f.(alive := Remove(f.alive, target));
    var w := KillWeapon(o, d.event, weapons[killer], d.exotic);
    assert w.1 == WeaponBonus(o, d.event);
    assert Eliminate(f, o, weapons, d) == KillBy(f0, o, weapons[killer], d, killer, target);
    CreditScores(f0, killer, target, w.1, w.2);
  }

  /** The weapon of a kill: a bomb in the lower half of the bomb-or-melee
      range and a melee kill in the upper half, an exotic weapon in the
      exotic range, and the killer's own weapon otherwise. */
  lemma KillWeaponChoice(f: Fight, o: Odds, weapons: map<string, string>, d: Draw)
    requires |f.alive| >= 2
    requires forall p :: p in f.alive ==> p in weapons
    requires o.suicide <= d.event < KillThreshold(o)
    ensures var e := Eliminate(f, o, weapons, d).1;
      && e.Kill?
      && (e.weapon == Bomb <==> d.event < BombThreshold(o) && d.event < o.suicide + o.bombOrMelee)
      && (e.weapon == Melee <==> BombThreshold(o) <= d.event < o.suicide + o.bombOrMelee)
      && (e.weapon.Exotic? <==> o.suicide + o.bombOrMelee <= d.event < o.suicide + o.bombOrMelee + o.exotic)
      && (e.weapon.Exotic? ==> e.weapon.token == d.exotic)
      && (e.weapon.Own? ==> e.weapon.token == weapons[Killer(f, d)])
  {
  }

  /** Streak bookkeeping of `Credit`. */
  lemma CreditStreak(f: Fight, killer: string, victim: string, weaponBonus: nat, notes: seq<Note>)
    requires ShutdownBonus !in notes
    ensures var out := Credit(f, killer, victim, weaponBonus, notes); var f' := out.0; var allNotes := out.1;
      && f'.alive == f.alive
      && f'.longest >= f.longest
      && f'.lastKiller == killer
      && (killer == f.lastKiller ==>
            && f'.streak == f.streak + 1
            && StreakBonus(f.streak + 1) in allNotes
            && f'.longest == (if f.streak + 1 > f.longest then f.streak + 1 else f.longest)
            && (f.streak + 1 > f.longest ==> f'.longestHolder == Some(killer))
            && (f.streak + 1 <= f.longest ==> f'.longestHolder == f.longestHolder))
      && (killer != f.lastKiller ==>
            && f'.streak == 1
            && f'.longest == f.longest && f'.longestHolder == f.longestHolder
            && (ShutdownBonus in allNotes <==> f.streak > 1 && victim == f.lastKiller))
  {
    var out := Credit(f, killer, victim, weaponBonus, notes); var f' := out.0; var allNotes := out.1;
    if killer == f.lastKiller {
      assert allNotes == notes + [StreakBonus(f.streak + 1)];
      assert allNotes[|notes|] == StreakBonus(f.streak + 1);
    } else if f.streak > 1 && victim == f.lastKiller {
      assert allNotes == notes + [ShutdownBonus];
      assert allNotes[|notes|] == ShutdownBonus;
    } else {
      assert allNotes == notes + [];
    }
  }

  /** Streak bookkeeping of a kill. The same killer again extends the streak
      by one, is paid the new streak length, and may raise the record;
      another killer starts a streak of 1, becomes the last killer, and is
      paid a shutdown bonus exactly when the victim held a streak longer than
      one. The record never shrinks. */
  lemma KillStreak(f: Fight, o: Odds, weapons: map<string, string>, d: Draw)
    requires |f.alive| >= 2
    requires forall p :: p in f.alive ==> p in weapons
    requires o.suicide <= d.event < KillThreshold(o)
    ensures var out := Eliminate(f, o, weapons, d); var f' := out.0; var e := out.1;
      var killer := Killer(f, d);
      && f'.longest >= f.longest
      && f'.lastKiller == killer
      && (killer == f.lastKiller ==>
            && f'.streak == f.streak + 1
            && StreakBonus(f.streak + 1) in e.notes
            && f'.longest == (if f.streak + 1 > f.longest then f.streak + 1 else f.longest)
            && (f.streak + 1 > f.longest ==> f'.longestHolder == Some(killer))
            && (f.streak + 1 <= f.longest ==> f'.longestHolder == f.longestHolder))
      && (killer != f.lastKiller ==>
            && f'.streak == 1
            && f'.longest == f.longest && f'.longestHolder == f.longestHolder
            && (ShutdownBonus in e.notes <==> f.streak > 1 && Target(f, d) == f.lastKiller))
  {
    hide Credit, RoundSize;
    var killer := Killer(f, d);
    var target := Target(f, d);
    var f0 := f.(alive := Remove(f.alive, target));
    var w := KillWeapon(o, d.event, weapons[killer], d.exotic);
    var c := Credit(f0, killer, target, w.1, w.2);
    assert Eliminate(f, o, weapons, d) == KillBy(f0, o, weapons[killer], d, killer, target);
    assert Eliminate(f, o, weapons, d).0 == c.0;
    assert Eliminate(f, o, weapons, d).1.notes == c.1;
    CreditStreak(f0, killer, target, w.1, w.2);
  }

  /** Every elimination keeps a fight valid. */
  lemma EliminateKeepsValid(f: Fight, roster: seq<string>, o: Odds, weapons: map<string, string>, d: Draw)
    requires Valid(f, roster)
    requires f.alive != []
    requires d.event >= o.suicide ==> |f.alive| >= 2
    requires forall p :: p in f.alive ==> p in weapons
    ensures Valid(Eliminate(f, o, weapons, d).0, roster)
  {
    var target := Target(f, d);
    var f0 := f.(alive := Remove(f.alive, target));
    RemoveKeepsValid(f, roster, target);
    if o.suicide <= d.event < KillThreshold(o) {
      var killer := Killer(f, d);
      KillerIsAnother(f, d);
      var w := KillWeapon(o, d.event, weapons[killer], d.exotic);
      assert Eliminate(f, o, weapons, d).0 == Credit(f0, killer, target, w.1, w.2).0;
      CreditKeepsValid(f0, roster, killer, target, w.1, w.2);
    }
  }

  lemma RemoveKeepsValid(f: Fight, roster: seq<string>, target: string)
    requires Valid(f, roster)
    requires target in f.alive
    ensures Valid(f.(alive := Remove(f.alive, target)), roster)
  {
    RemoveFromDistinct(f.alive, target);
  }

  /** Crediting a kill to a roster member keeps a fight valid. */
  lemma CreditKeepsValid(f: Fight, roster: seq<string>, killer: string, victim: string, weaponBonus: nat, notes: seq<Note>)
    requires Valid(f, roster)
    requires killer in roster && killer != ""
    ensures Valid(Credit(f, killer, victim, weaponBonus, notes).0, roster)
  {
    hide AddTo;
    var f' := Credit(f, killer, victim, weaponBonus, notes).0;
    var n := 1 + weaponBonus + StreakGain(f, killer, victim);
    CreditKills(f, killer, victim, weaponBonus, notes);
    assert f'.kills == AddTo(f.kills, killer, n);
    AddToKeepsScores(f.kills, killer, n, roster);
    assert ScoresWithin(f'.kills, roster);
    CreditKeepsStreak(f, roster, killer, victim, weaponBonus, notes);
    assert StreakWithin(f', roster);
    assert f'.alive == f.alive;
    assert AliveWithin(f'.alive, roster);
  }

  lemma CreditKeepsStreak(f: Fight, roster: seq<string>, killer: string, victim: string, weaponBonus: nat, notes: seq<Note>)
    requires StreakWithin(f, roster)
    requires killer in roster && killer != ""
    ensures StreakWithin(Credit(f, killer, victim, weaponBonus, notes).0, roster)
  {
    var f' := Credit(f, killer, victim, weaponBonus, notes).0;
    if killer == f.lastKiller {
      assert f'.streak == f.streak + 1 >= 2;
    }
  }

  // ---------------------------------------------------------------------------
  // Rounds and the whole fight
  // ---------------------------------------------------------------------------

  /** How many of the events removed someone from the roster. */
  function Eliminations(events: seq<Event>): (n: nat)
    ensures n <= |events|
  {
    if events == [] then 0
    else (if events[0].Block? then 0 else 1) + Eliminations(events[1..])
  }

  lemma {:induction false} EliminationsAppend(a: seq<Event>, b: seq<Event>)
    ensures Eliminations(a + b) == Eliminations(a) + Eliminations(b)
  {
    if a != [] {
      assert (a + b)[0] == a[0];
      assert (a + b)[1..] == a[1..] + b;
      EliminationsAppend(a[1..], b);
    } else {
      assert a + b == b;
    }
  }

  /** Eliminations `i` to `k - 1` of a round, each on the roster the previous
      ones left. As long as one more participant is alive than eliminations
      remain, every elimination finds a target and, unless it is a suicide, a
      killer other than the target. */
  function PlayDraws(f: Fight, o: Odds, weapons: map<string, string>, draws: nat -> Draw, i: nat, k: nat): (r: (Fight, seq<Event>))
    requires i <= k
    requires |f.alive| >= k - i + 1
    requires forall p :: p in f.alive ==> p in weapons
    ensures |r.0.alive| >= 1
    ensures forall p :: p in r.0.alive ==> p in f.alive
    decreases k - i
  {
    if i == k then (f, [])
    else
      var step := Eliminate(f, o, weapons, draws(i));
      var rest := PlayDraws(step.0, o, weapons, draws, i + 1, k);
      (rest.0, [step.1] + rest.1)
  }

  /** A run of draws yields one event per draw, and the roster shrinks by
      one for every event that is not a block. */
  lemma {:induction false} PlayDrawsCount(f: Fight, o: Odds, weapons: map<string, string>, draws: nat -> Draw, i: nat, k: nat)
    requires i <= k
    requires |f.alive| >= k - i + 1
    requires forall p :: p in f.alive ==> p in weapons
    ensures |PlayDraws(f, o, weapons, draws, i, k).1| == k - i
    ensures |PlayDraws(f, o, weapons, draws, i, k).0.alive| == |f.alive| - Eliminations(PlayDraws(f, o, weapons, draws, i, k).1)
    decreases k - i
  {
    hide Eliminate;
    if i < k {
      var step := Eliminate(f, o, weapons, draws(i));
      var rest := PlayDraws(step.0, o, weapons, draws, i + 1, k);
      PlayDrawsCount(step.0, o, weapons, draws, i + 1, k);
      var events := [step.1] + rest.1;
      assert PlayDraws(f, o, weapons, draws, i, k) == (rest.0, events);
      assert events[0] == step.1;
      assert events[1..] == rest.1;
    }
  }

  /** One round: draw the number of eliminations, then play them. */
  function PlayRound(f: Fight, o: Odds, weapons: map<string, string>, x: real, draws: nat -> Draw): (r: (Fight, seq<Event>))
    requires |f.alive| >= 2
    requires forall p :: p in f.alive ==> p in weapons
    ensures 1 <= |r.0.alive|
    ensures forall p :: p in r.0.alive ==> p in f.alive
  {
    RoundSizeLeavesOne(|f.alive|, x);
    PlayDraws(f, o, weapons, draws, 0, RoundSize(|f.alive|, x))
  }

  /** A round yields as many events as its drawn size, and the roster
      shrinks by one for every event that is not a block. */
  lemma PlayRoundCount(f: Fight, o: Odds, weapons: map<string, string>, x: real, draws: nat -> Draw)
    requires |f.alive| >= 2
    requires forall p :: p in f.alive ==> p in weapons
    ensures |PlayRound(f, o, weapons, x, draws).1| == RoundSize(|f.alive|, x)
    ensures |PlayRound(f, o, weapons, x, draws).0.alive| == |f.alive| - Eliminations(PlayRound(f, o, weapons, x, draws).1)
  {
    RoundSizeLeavesOne(|f.alive|, x);
    PlayDrawsCount(f, o, weapons, draws, 0, RoundSize(|f.alive|, x));
  }

  /** The `while len(dim_participants) > 1` loop for at most `fuel` rounds,
      `xs(r)` and `draws(r)` being round `r`'s random inputs. Blocks may
      eliminate no one, so the loop ends only with probability 1; `fuel`
      bounds the rounds looked at. */
  function Run(f: Fight, o: Odds, weapons: map<string, string>, xs: nat -> real, draws: nat -> nat -> Draw, round: nat, fuel: nat): (r: (Fight, seq<Event>))
    requires f.alive != []
    requires forall p :: p in f.alive ==> p in weapons
    ensures 1 <= |r.0.alive|
    ensures forall p :: p in r.0.alive ==> p in f.alive
    decreases fuel
  {
    if |f.alive| <= 1 || fuel == 0 then (f, [])
    else
      var first := PlayRound(f, o, weapons, xs(round), draws(round));
      var rest := Run(first.0, o, weapons, xs, draws, round + 1, fuel - 1);
      (rest.0, first.1 + rest.1)
  }

  /** Over a whole run, the roster shrinks by one for every event that is
      not a block. */
  lemma {:induction false} RunCount(f: Fight, o: Odds, weapons: map<string, string>, xs: nat -> real, draws: nat -> nat -> Draw, round: nat, fuel: nat)
    requires f.alive != []
    requires forall p :: p in f.alive ==> p in weapons
    ensures |Run(f, o, weapons, xs, draws, round, fuel).0.alive| == |f.alive| - Eliminations(Run(f, o, weapons, xs, draws, round, fuel).1)
    decreases fuel
  {
    hide Eliminate, RoundSize, PlayDraws;
    if |f.alive| > 1 && fuel > 0 {
      var first := PlayRound(f, o, weapons, xs(round), draws(round));
      var rest := Run(first.0, o, weapons, xs, draws, round + 1, fuel - 1);
      PlayRoundCount(f, o, weapons, xs(round), draws(round));
      RunCount(first.0, o, weapons, xs, draws, round + 1, fuel - 1);
      EliminationsAppend(first.1, rest.1);
      assert Run(f, o, weapons, xs, draws, round, fuel) == (rest.0, first.1 + rest.1);
    }
  }

  lemma {:induction false} PlayDrawsKeepsValid(f: Fight, roster: seq<string>, o: Odds, weapons: map<string, string>, draws: nat -> Draw, i: nat, k: nat)
    requires Valid(f, roster)
    requires i <= k
    requires |f.alive| >= k - i + 1
    requires forall p :: p in f.alive ==> p in weapons
    ensures Valid(PlayDraws(f, o, weapons, draws, i, k).0, roster)
    ensures PlayDraws(f, o, weapons, draws, i, k).0.longest >= f.longest
    decreases k - i
  {
    hide Eliminate;
    if i < k {
      var step := Eliminate(f, o, weapons, draws(i)); var f1 := step.0; var e := step.1;
      EliminateKeepsValid(f, roster, o, weapons, draws(i));
      EliminateKeepsRecord(f, o, weapons, draws(i));
      PlayDrawsKeepsValid(f1, roster, o, weapons, draws, i + 1, k);
    }
  }

  lemma EliminateKeepsRecord(f: Fight, o: Odds, weapons: map<string, string>, d: Draw)
    requires f.alive != []
    requires d.event >= o.suicide ==> |f.alive| >= 2
    requires forall p :: p in f.alive ==> p in weapons
    ensures Eliminate(f, o, weapons, d).0.longest >= f.longest
  {
  }

  /** The whole fight among distinct, non-empty names: the roster never
      empties; whoever is left is an original participant; every removal is
      one suicide or kill event; every state is valid, so the longest-streak
      record is 0 or at least 2 and only grows; and once one participant is
      left, that participant is the winner. */
  lemma RunSpec(participants: seq<string>, o: Odds, custom: map<string, string>, pick: string -> string, xs: nat -> real, draws: nat -> nat -> Draw, fuel: nat)
    requires participants != []
    requires Distinct(participants)
    requires forall p :: p in participants ==> p != ""
    ensures var out := Run(Start(participants), o, AssignWeapons(participants, custom, pick), xs, draws, 0, fuel); var f := out.0; var events := out.1;
      && Valid(f, participants)
      && 1 <= |f.alive|
      && Eliminations(events) == |participants| - |f.alive|
      && (|f.alive| == 1 ==> f.alive[0] in participants && Eliminations(events) == |participants| - 1)
      && (f.longest == 0 || f.longest >= 2)
  {
    StartIsValid(participants);
    RunCount(Start(participants), o, AssignWeapons(participants, custom, pick), xs, draws, 0, fuel);
    RunKeepsValid(Start(participants), participants, o, AssignWeapons(participants, custom, pick), xs, draws, 0, fuel);
  }

  lemma {:induction false} RunKeepsValid(f: Fight, roster: seq<string>, o: Odds, weapons: map<string, string>, xs: nat -> real, draws: nat -> nat -> Draw, round: nat, fuel: nat)
    requires Valid(f, roster)
    requires f.alive != []
    requires forall p :: p in f.alive ==> p in weapons
    ensures Valid(Run(f, o, weapons, xs, draws, round, fuel).0, roster)
    ensures Run(f, o, weapons, xs, draws, round, fuel).0.longest >= f.longest
    decreases fuel
  {
    hide Eliminate, RoundSize, PlayDraws;
    RunUnfold(f, o, weapons, xs, draws, round, fuel);
    if |f.alive| > 1 && fuel > 0 {
      PlayRoundKeepsValid(f, roster, o, weapons, xs(round), draws(round));
      var f1 := PlayRound(f, o, weapons, xs(round), draws(round)).0;
      RunKeepsValid(f1, roster, o, weapons, xs, draws, round + 1, fuel - 1);
    }
  }

  /** The final state of a run is that of the run from the state after the
      first round, or the starting state when no round is played. */
  lemma RunUnfold(f: Fight, o: Odds, weapons: map<string, string>, xs: nat -> real, draws: nat -> nat -> Draw, round: nat, fuel: nat)
    requires f.alive != []
    requires forall p :: p in f.alive ==> p in weapons
    ensures |f.alive| > 1 && fuel > 0 ==>
      Run(f, o, weapons, xs, draws, round, fuel).0
      == Run(PlayRound(f, o, weapons, xs(round), draws(round)).0, o, weapons, xs, draws, round + 1, fuel - 1).0
    ensures !(|f.alive| > 1 && fuel > 0) ==> Run(f, o, weapons, xs, draws, round, fuel).0 == f
  {
  }

  lemma PlayRoundKeepsValid(f: Fight, roster: seq<string>, o: Odds, weapons: map<string, string>, x: real, draws: nat -> Draw)
    requires Valid(f, roster)
    requires |f.alive| >= 2
    requires forall p :: p in f.alive ==> p in weapons
    ensures Valid(PlayRound(f, o, weapons, x, draws).0, roster)
    ensures PlayRound(f, o, weapons, x, draws).0.longest >= f.longest
  {
    RoundSizeLeavesOne(|f.alive|, x);
    PlayDrawsKeepsValid(f, roster, o, weapons, draws, 0, RoundSize(|f.alive|, x));
  }

  /** When every draw falls below the suicide probability (as with a
      suicide probability of 1), every event is a suicide and no score or
      streak ever changes. */
  lemma {:induction false} SuicidesOnly(f: Fight, o: Odds, weapons: map<string, string>, draws: nat -> Draw, i: nat, k: nat)
    requires i <= k
    requires |f.alive| >= k - i + 1
    requires forall p :: p in f.alive ==> p in weapons
    requires forall j :: i <= j < k ==> draws(j).event < o.suicide
    ensures SameScores(PlayDraws(f, o, weapons, draws, i, k).0, f)
    ensures forall e :: e in PlayDraws(f, o, weapons, draws, i, k).1 ==> e.Suicide?
    decreases k - i
  {
    hide KillBy, RoundSize;
    if i < k {
      var step := Eliminate(f, o, weapons, draws(i));
      SuicidesOnly(step.0, o, weapons, draws, i + 1, k);
    }
  }

  /** Two states with the same kill points and streak state. */
  predicate SameScores(f: Fight, g: Fight)
  {
    f.kills == g.kills && f.lastKiller == g.lastKiller && f.streak == g.streak
    && f.longest == g.longest && f.longestHolder == g.longestHolder
  }

  lemma {:induction false} RunOfSuicides(f: Fight, o: Odds, weapons: map<string, string>, xs: nat -> real, draws: nat -> nat -> Draw, round: nat, fuel: nat)
    requires f.alive != []
    requires forall p :: p in f.alive ==> p in weapons
    requires forall r: nat, j: nat :: draws(r)(j).event < o.suicide
    ensures SameScores(Run(f, o, weapons, xs, draws, round, fuel).0, f)
    ensures forall e :: e in Run(f, o, weapons, xs, draws, round, fuel).1 ==> e.Suicide?
    decreases fuel
  {
    hide Eliminate, RoundSize, PlayDraws;
    if |f.alive| > 1 && fuel > 0 {
      RoundSizeLeavesOne(|f.alive|, xs(round));
      var first := PlayRound(f, o, weapons, xs(round), draws(round));
      SuicidesOnly(f, o, weapons, draws(round), 0, RoundSize(|f.alive|, xs(round)));
      RunOfSuicides(first.0, o, weapons, xs, draws, round + 1, fuel - 1);
    }
  }

  /** Three fighters, no suicides, no blocks and no bonus weapons: when B
      kills A and then C, B scores 1 for the first kill and 1 plus a streak
      bonus of 2 for the second, 4 in all, and holds the longest streak, 2. */
  lemma TwoKillsInARow()
    ensures var step1 := Eliminate(Start(["A", "B", "C"]), PlainOdds, PlainWeapons, Draw(0, 0.5, 0, ""));
      var step2 := Eliminate(step1.0, PlainOdds, PlainWeapons, Draw(1, 0.5, 0, ""));
      && step1.1 == Kill("B", "A", Own("w"), [])
      && step2.1 == Kill("B", "C", Own("w"), [StreakBonus(2)])
      && step2.0.alive == ["B"]
      && step2.0.kills == [("B", 4)]
      && step2.0.longest == 2 && step2.0.longestHolder == Some("B")
  {
    FirstKill();
    SecondKill();
  }

  const PlainOdds := Odds(0.0, 0.0, 0.0, 0.0)
  const PlainWeapons := map["A" := "w", "B" := "w", "C" := "w"]

  lemma FirstKill()
    ensures Eliminate(Start(["A", "B", "C"]), PlainOdds, PlainWeapons, Draw(0, 0.5, 0, ""))
      == (Fight(["B", "C"], [("B", 1)], "B", 1, 0, None), Kill("B", "A", Own("w"), []))
  {
    var f0 := Start(["A", "B", "C"]);
    var d := Draw(0, 0.5, 0, "");
    assert Remove(["A", "B", "C"], "A") == ["B", "C"];
    assert Target(f0, d) == "A";
    assert Killer(f0, d) == "B";
    assert KillWeapon(PlainOdds, 0.5, "w", "") == (Own("w"), 0, []);
    assert AddTo([], "B", 1) == [("B", 1)];
    var g := f0.(alive := ["B", "C"]);
    assert Credit(g, "B", "A", 0, []).1 == [];
    assert Credit(g, "B", "A", 0, []).0.kills == [("B", 1)];
  }

  lemma SecondKill()
    ensures Eliminate(Fight(["B", "C"], [("B", 1)], "B", 1, 0, None), PlainOdds, PlainWeapons, Draw(1, 0.5, 0, ""))
      == (Fight(["B"], [("B", 4)], "B", 2, 2, Some("B")), Kill("B", "C", Own("w"), [StreakBonus(2)]))
  {
    var f1 := Fight(["B", "C"], [("B", 1)], "B", 1, 0, None);
    var d := Draw(1, 0.5, 0, "");
    assert Remove(["B", "C"], "C") == ["B"];
    assert Target(f1, d) == "C";
    assert Killer(f1, d) == "B";
    assert KillWeapon(PlainOdds, 0.5, "w", "") == (Own("w"), 0, []);
    assert AddTo([("B", 1)], "B", 3) == [("B", 4)];
    var g := f1.(alive := ["B"]);
    assert StreakGain(g, "B", "C") == 2;
    assert Credit(g, "B", "C", 0, []).1 == [StreakBonus(2)];
    assert Credit(g, "B", "C", 0, []).0.kills == [("B", 4)];
  }
}
