/**
 The battle-royale lobby (`Cogs/battleroyale.py`): the `battleroyale <bet>`
 command opens a lobby with a forced bet, `joinbr` adds participants who pay
 the same entry fee, and a lobby that does not reach the minimum number of
 participants is cancelled and every fee refunded.

 An entry fee is paid from holiday points first when the battle royale is the
 day's holiday minigame; only the part paid from the balance counts against
 the gambling profit. The user database is a map from user name to account.
 */
module Lobby {
  import opened Wrappers
  import Arena

  /** The fields of a user's database entry that the lobby touches. */
  datatype Account = Account(balance: int, holiday: int, gamblingProfit: int)

  type Bank = map<string, Account>

  /** `br_participants`, `br_holiday_points_used`, `br_pool`, `br_bet` and
      `br_closed`. */
  datatype Lobby = Lobby(participants: seq<string>, holidayUsed: seq<int>, pool: int, bet: int, closed: bool)

  /** The state after construction and after every reset. */
  function Idle(): Lobby
  {
    Lobby([], [], 0, 0, true)
  }

  /** The `[BattleRoyale]` configuration. */
  datatype Settings = Settings(delay: int, minBet: int, minUsers: int, odds: Arena.Odds)

  /** The fallbacks used when the configuration leaves a key out. */
  const DefaultDelay := 180
  const DefaultMinBet := 5
  const DefaultMinUsers := 3
  const DefaultOdds := Arena.Odds(1.0, 0.3, 0.15, 0.05)

  /** Loading the cog fails when fewer than three participants are
      configured as the minimum. */
  function LoadSettings(delay: int, minBet: int, minUsers: int, odds: Arena.Odds): (r: Result<Settings, string>)
    ensures r.Err? <==> minUsers < 3
    ensures r.Ok? ==> r.value == Settings(delay, minBet, minUsers, odds) && r.value.minUsers >= 3
  {
    if minUsers < 3 then Err("Minimum number of BR participants is 3!")
    else Ok(Settings(delay, minBet, minUsers, odds))
  }

  /** With the fallback probabilities every draw below 1 is a suicide: the
      fallback suicide probability is 1. */
  lemma DefaultOddsMeanSuicide(event: real)
    requires 0.0 <= event < 1.0
    ensures event < DefaultOdds.suicide
    ensures Arena.KillThreshold(DefaultOdds) == 1.7
  {
  }

  // ---------------------------------------------------------------------------
  // Entry fees
  // ---------------------------------------------------------------------------

  /** The holiday points a user may spend: their `holiday` field when the
      battle royale is the day's holiday minigame, otherwise none. */
  function HolidayPoints(a: Account, holidayGame: bool): int
  {
    if holidayGame then a.holiday else 0
  }

  /** `balance + holiday >= bet`: the user can pay the entry fee. */
  predicate CanPay(a: Account, holidayGame: bool, bet: int)
  {
    a.balance + HolidayPoints(a, holidayGame) >= bet
  }

  /** Takes the entry fee `bet` from an account; returns the new account and
      the holiday points used, as appended to `br_holiday_points_used`. */
  function PayFee(a: Account, holidayGame: bool, bet: int): (r: (Account, int))
    ensures var (a', used) := r; var hp := HolidayPoints(a, holidayGame);
      && used == (if hp > 0 then (if bet < hp then bet else hp) else 0)
      && a'.holiday == a.holiday - used
      && a'.balance == a.balance - (bet - used)
      && a'.gamblingProfit == a.gamblingProfit - (bet - used)
      && a'.balance + a'.holiday == a.balance + a.holiday - bet
  {
    var holiday := HolidayPoints(a, holidayGame);
    if holiday > 0 then
      var leftover := bet - holiday;
      if leftover > 0 then
        (Account(a.balance - leftover, a.holiday - holiday, a.gamblingProfit - leftover), holiday)
      else
        (a.(holiday := a.holiday - bet), bet)
    else
      (Account(a.balance - bet, a.holiday, a.gamblingProfit - bet), 0)
  }

  /** A fee the user can afford never overdraws the balance, and a
      non-negative fee never spends more holiday points than the user had. */
  lemma AffordableFee(a: Account, holidayGame: bool, bet: int)
    requires a.balance >= 0 && bet >= 0
    requires CanPay(a, holidayGame, bet)
    ensures PayFee(a, holidayGame, bet).0.balance >= 0
    ensures 0 <= PayFee(a, holidayGame, bet).1 <= bet
    ensures holidayGame && a.holiday >= 0 ==> PayFee(a, holidayGame, bet).0.holiday >= 0
  {
  }

  /** Gives back an entry fee `bet` of which `used` came from holiday
      points. */
  function Refund(a: Account, bet: int, used: int): (r: Account)
    ensures r.gamblingProfit == a.gamblingProfit + (bet - used)
    ensures used > 0 ==> r.holiday == a.holiday + used && r.balance == a.balance + (bet - used)
    ensures used <= 0 ==> r.holiday == a.holiday && r.balance == a.balance + bet
  {
    var a1 := a.(gamblingProfit := a.gamblingProfit + (bet - used));
    if used > 0 then a1.(holiday := a1.holiday + used, balance := a1.balance + bet - used)
    else a1.(balance := a1.balance + bet)
  }

  /** A refund undoes the entry fee it refunds. */
  lemma RefundUndoesFee(a: Account, holidayGame: bool, bet: int)
    requires bet >= 0
    ensures Refund(PayFee(a, holidayGame, bet).0, bet, PayFee(a, holidayGame, bet).1) == a
  {
  }

  /** A negative fee (possible only with a negative minimum bet) that is
      paid from holiday points records a negative number of points used, and
      the refund then neither takes the points back nor keeps the balance. */
  lemma NegativeFeeIsNotUndone()
    ensures var a := Account(0, 5, 0);
      var (paid, used) := PayFee(a, true, -1);
      && paid == Account(0, 6, 0) && used == -1
      && Refund(paid, -1, used) == Account(-1, 6, 0)
  {
  }

  // ---------------------------------------------------------------------------
  // Starting and joining
  // ---------------------------------------------------------------------------

  /** The `bet` argument: absent or empty, not an integer, or a number. */
  datatype BetArg = Missing | Malformed | Amount(value: int)

  /** Whether high-stakes gambling is locked (`gambling.lock`), and the
      largest bet allowed then. */
  datatype Lock = Unlocked | Locked(maxBet: int)

  datatype StartError =
    | NoBet
    | NotAnInteger
    | InProgress
    | RaceRunning
    | BelowMinimum(minBet: int)
    | NotEnoughFunds
    | AboveLockLimit(maxBet: int)

  /** `battleroyale <bet>` by `author`, whose account is `a`: the checks in
      the order the command makes them, then the lobby opens with the author
      as the first participant, having paid the bet. */
  function StartBattle(l: Lobby, s: Settings, author: string, a: Account, arg: BetArg, raceRunning: bool, holidayGame: bool, lock: Lock): (r: Result<(Lobby, Account), StartError>)
    ensures arg.Missing? ==> r == Err(NoBet)
    ensures arg.Malformed? ==> r == Err(NotAnInteger)
    ensures r.Ok? <==>
      && arg.Amount?
      && l.bet == 0
      && !raceRunning
      && arg.value >= s.minBet
      && CanPay(a, holidayGame, arg.value)
      && (lock.Locked? ==> arg.value <= lock.maxBet)
    ensures arg.Amount? && l.bet != 0 ==> r == Err(InProgress)
    ensures arg.Amount? && l.bet == 0 && raceRunning ==> r == Err(RaceRunning)
    ensures arg.Amount? && l.bet == 0 && !raceRunning && arg.value < s.minBet ==> r == Err(BelowMinimum(s.minBet))
    ensures r.Err? && arg.Amount? && l.bet == 0 && !raceRunning && arg.value >= s.minBet ==>
      r.error == (if !CanPay(a, holidayGame, arg.value) then NotEnoughFunds else AboveLockLimit(lock.maxBet))
    ensures r.Ok? ==>
      var (a', used) := PayFee(a, holidayGame, arg.value);
      r.value == (Lobby(l.participants + [author], l.holidayUsed + [used], arg.value, arg.value, false), a')
  {
    match arg
    case Missing => Err(NoBet)
    case Malformed => Err(NotAnInteger)
    case Amount(bet) =>
      if l.bet != 0 then Err(InProgress)
      else if raceRunning then Err(RaceRunning)
      else if bet < s.minBet then Err(BelowMinimum(s.minBet))
      else if !CanPay(a, holidayGame, bet) then Err(NotEnoughFunds)
      else if lock.Locked? && bet > lock.maxBet then Err(AboveLockLimit(lock.maxBet))
      else
        var (a', used) := PayFee(a, holidayGame, bet);
        Ok((Lobby(l.participants + [author], l.holidayUsed + [used], bet, bet, false), a'))
  }

  datatype JoinError = TooLate | AlreadyJoined | CannotPay

  /** `joinbr` by `author`, whose account is `a`. */
  function JoinBattle(l: Lobby, author: string, a: Account, holidayGame: bool): (r: Result<(Lobby, Account), JoinError>)
    ensures r.Ok? <==> !l.closed && author !in l.participants && CanPay(a, holidayGame, l.bet)
    ensures l.closed ==> r == Err(TooLate)
    ensures !l.closed && author in l.participants ==> r == Err(AlreadyJoined)
    ensures r.Ok? ==>
      var (a', used) := PayFee(a, holidayGame, l.bet);
      && r.value.1 == a'
      && r.value.0.participants == l.participants + [author]
      && r.value.0.holidayUsed == l.holidayUsed + [used]
      && r.value.0.pool == l.pool + l.bet
      && r.value.0.bet == l.bet && !r.value.0.closed
  {
    if l.closed then Err(TooLate)
    else if author in l.participants then Err(AlreadyJoined)
    else if CanPay(a, holidayGame, l.bet) then
      var (a', used) := PayFee(a, holidayGame, l.bet);
      Ok((l.(participants := l.participants + [author], holidayUsed := l.holidayUsed + [used], pool := l.pool + l.bet), a'))
    else Err(CannotPay)
  }

  // ---------------------------------------------------------------------------
  // Bookkeeping across the lobby's life
  // ---------------------------------------------------------------------------

  /** An open or closing lobby: one holiday-points entry per participant, no
      one twice, and the pool is the bet once per participant. */
  predicate WellFormed(l: Lobby)
  {
    && |l.holidayUsed| == |l.participants|
    && Arena.Distinct(l.participants)
    && l.pool == l.bet * |l.participants|
  }

  /** Starting from the idle lobby gives a well-formed lobby, and so does
      every successful join. */
  lemma StartIsWellFormed(s: Settings, author: string, a: Account, arg: BetArg, raceRunning: bool, holidayGame: bool, lock: Lock)
    ensures var r := StartBattle(Idle(), s, author, a, arg, raceRunning, holidayGame, lock);
      r.Ok? ==> WellFormed(r.value.0) && r.value.0.participants == [author]
  {
  }

  lemma JoinKeepsWellFormed(l: Lobby, author: string, a: Account, holidayGame: bool)
    requires WellFormed(l)
    ensures var r := JoinBattle(l, author, a, holidayGame);
      r.Ok? ==> WellFormed(r.value.0) && |r.value.0.participants| == |l.participants| + 1
  {
    var r := JoinBattle(l, author, a, holidayGame);
    if r.Ok? {
      var ps := r.value.0.participants;
      assert ps == l.participants + [author];
      forall i, j | 0 <= i < j < |ps|
        ensures ps[i] != ps[j]
      {
        if j == |l.participants| {
          assert ps[i] == l.participants[i];
        } else {
          assert ps[i] == l.participants[i] && ps[j] == l.participants[j];
        }
      }
    }
  }

  /** What the lobby owes back: every participant is a user whose refund of
      the bet with their recorded holiday points restores the account they
      had in `before`, and everybody else still has that account. */
  ghost predicate Owes(l: Lobby, before: Bank, now: Bank)
  {
    && |l.holidayUsed| == |l.participants|
    && now.Keys == before.Keys
    && (forall i :: 0 <= i < |l.participants| ==>
          l.participants[i] in before && Refund(now[l.participants[i]], l.bet, l.holidayUsed[i]) == before[l.participants[i]])
    && (forall k :: k in now && k !in l.participants ==> now[k] == before[k])
  }

  /** Refunds, in order, the participants `ps` with holiday points `used`. */
  function RefundAll(ps: seq<string>, used: seq<int>, bet: int, bank: Bank): (r: Bank)
    requires |used| == |ps|
    ensures r.Keys == bank.Keys
    ensures forall k :: k in bank && k !in ps ==> r[k] == bank[k]
  {
    if ps == [] then bank
    else
      var bank' := if ps[0] in bank then bank[ps[0] := Refund(bank[ps[0]], bet, used[0])] else bank;
      RefundAll(ps[1..], used[1..], bet, bank')
  }

  /** The cancellation: the lobby closes, and with fewer participants than
      the minimum every fee is refunded. */
  function Close(l: Lobby, s: Settings, bank: Bank): (r: (Bank, bool))
    requires |l.holidayUsed| == |l.participants|
    ensures r.1 <==> |l.participants| >= s.minUsers
    ensures r.1 ==> r.0 == bank
  {
    if |l.participants| < s.minUsers then (RefundAll(l.participants, l.holidayUsed, l.bet, bank), false)
    else (bank, true)
  }

  /** The idle lobby owes nothing. */
  lemma IdleOwesNothing(bank: Bank)
    ensures Owes(Idle(), bank, bank)
  {
  }

  /** A successful start from the idle lobby records what it owes, when the
      minimum bet is not negative. */
  lemma StartOwes(bank: Bank, s: Settings, author: string, arg: BetArg, raceRunning: bool, holidayGame: bool, lock: Lock)
    requires s.minBet >= 0
    requires author in bank
    ensures var r := StartBattle(Idle(), s, author, bank[author], arg, raceRunning, holidayGame, lock);
      r.Ok? ==> Owes(r.value.0, bank, bank[author := r.value.1])
  {
    var r := StartBattle(Idle(), s, author, bank[author], arg, raceRunning, holidayGame, lock);
    if r.Ok? {
      RefundUndoesFee(bank[author], holidayGame, arg.value);
      assert r.value.0.participants == [author];
    }
  }

  /** A successful join with a non-negative bet records what it owes. */
  lemma JoinOwes(l: Lobby, before: Bank, now: Bank, author: string, holidayGame: bool)
    requires Owes(l, before, now)
    requires l.bet >= 0
    requires author in now
    ensures var r := JoinBattle(l, author, now[author], holidayGame);
      r.Ok? ==> Owes(r.value.0, before, now[author := r.value.1])
  {
    var r := JoinBattle(l, author, now[author], holidayGame);
    if r.Ok? {
      var l' := r.value.0;
      var now' := now[author := r.value.1];
      RefundUndoesFee(now[author], holidayGame, l.bet);
      assert now[author] == before[author];
      forall i | 0 <= i < |l'.participants|
        ensures l'.participants[i] in before
        ensures Refund(now'[l'.participants[i]], l'.bet, l'.holidayUsed[i]) == before[l'.participants[i]]
      {
        if i < |l.participants| {
          assert l'.participants[i] == l.participants[i] && l'.holidayUsed[i] == l.holidayUsed[i];
          assert l.participants[i] != author;
        }
      }
    }
  }

  /** Refunding everyone the lobby owes restores every account. */
  lemma {:induction false} RefundAllRestores(ps: seq<string>, used: seq<int>, bet: int, before: Bank, now: Bank)
    requires |used| == |ps|
    requires Arena.Distinct(ps)
    requires now.Keys == before.Keys
    requires forall i :: 0 <= i < |ps| ==> ps[i] in before && Refund(now[ps[i]], bet, used[i]) == before[ps[i]]
    requires forall k :: k in now && k !in ps ==> now[k] == before[k]
    ensures RefundAll(ps, used, bet, now) == before
  {
    if ps == [] {
      assert forall k :: k in now ==> now[k] == before[k];
    } else {
      var now' := now[ps[0] := Refund(now[ps[0]], bet, used[0])];
      var rest := ps[1..];
      assert Arena.Distinct(rest);
      assert ps[0] !in rest;
      forall i | 0 <= i < |rest|
        ensures rest[i] in before && Refund(now'[rest[i]], bet, used[1..][i]) == before[rest[i]]
      {
        assert rest[i] == ps[i + 1] && used[1..][i] == used[i + 1];
      }
      forall k | k in now' && k !in rest
        ensures now'[k] == before[k]
      {
        if k != ps[0] {
          assert k !in ps;
        }
      }
      RefundAllRestores(rest, used[1..], bet, before, now');
    }
  }

  /** Cancelling a lobby restores every account to what it was before the
      lobby opened: a cancelled battle royale costs no one anything. */
  lemma CancelRestores(l: Lobby, s: Settings, before: Bank, now: Bank)
    requires WellFormed(l)
    requires Owes(l, before, now)
    requires |l.participants| < s.minUsers
    ensures Close(l, s, now) == (before, false)
  {
    RefundAllRestores(l.participants, l.holidayUsed, l.bet, before, now);
  }
}
