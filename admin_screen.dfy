/** The two store operations of the admin panel
    (src/components/AdminScreen.tsx): overwriting today's winner positions
    after validation, and wiping every game key. The position fields are
    integers here; the date key is a parameter. */
module AdminScreen {
  import opened Wrappers
  import opened GameTypes
  import opened BrowserStorage
  import opened GameService
  import opened PlaySeries

  // ---------------------------------------------------------------------
  // Setting the winner positions (handleSetPositions)
  // ---------------------------------------------------------------------

  datatype PositionError = SamePositions | NonPositivePosition

  /** The checks made before anything is written: equal positions are
      reported first, then a position below 1. Accepted exactly when the
      record they would configure is well formed. */
  function ValidatePositions(saint: int, devil: int): (r: Option<PositionError>)
    ensures r == Some(SamePositions) <==> saint == devil
    ensures r == Some(NonPositivePosition) <==> saint != devil && (saint < 1 || devil < 1)
    ensures r == None <==> WinnerPositionsValid(ConfiguredStats("", saint, devil))
  {
    if saint == devil then Some(SamePositions)
    else if saint < 1 || devil < 1 then Some(NonPositivePosition)
    else None
  }

  /** The record the admin writes: the given positions, no players, no
      winner found; well formed exactly when the positions are both at least
      1 and different. */
  function ConfiguredStats(today: string, saint: int, devil: int): (s: DailyStats)
    ensures s.date == today && s.totalPlayers == 0
    ensures !s.saintWinnerFound && !s.devilWinnerFound
    ensures s.saintWinnerPosition == saint && s.devilWinnerPosition == devil
    ensures WinnerPositionsValid(s) <==> saint >= 1 && devil >= 1 && saint != devil
  {
    DailyStats(today, 0, saint, devil, false, false)
  }

  /** Rejects invalid positions without writing anything; otherwise
      replaces today's record by a fresh one holding the given positions,
      which also restarts the day's counter and reopens both winner slots.
      No other entry changes. */
  method HandleSetPositions(storage: LocalStorage, today: string, saint: int, devil: int)
    returns (r: Result<DailyStats, PositionError>)
    requires Consistent(storage.items)
    modifies storage
    ensures Consistent(storage.items)
    ensures ValidatePositions(saint, devil).Some? ==>
      r == Failure(ValidatePositions(saint, devil).value) && storage.items == old(storage.items)
    ensures ValidatePositions(saint, devil).None? ==>
      r == Success(ConfiguredStats(today, saint, devil))
      && storage.items == old(storage.items)[StatsKey(today) := StatsRecord(ConfiguredStats(today, saint, devil))]
  {
    if saint == devil {
      return Failure(SamePositions);
    }
    if saint < 1 || devil < 1 {
      return Failure(NonPositivePosition);
    }
    var newStats := ConfiguredStats(today, saint, devil);
    WriteStatsKeepsConsistent(storage.items, newStats);
    storage.SetItem(StatsKey(today), StatsRecord(newStats));
    r := Success(newStats);
  }

  /** Setting positions touches nothing but today's record: every other
      date's record and every play record keep their values. */
  lemma SetPositionsOnlyToday(items: map<string, Entry>, today: string, s: DailyStats,
                              date: string, phone: string, ip: string)
    requires date != today
    ensures StatsOn(items[StatsKey(today) := StatsRecord(s)], date) == StatsOn(items, date)
    ensures var after := items[StatsKey(today) := StatsRecord(s)];
      (LastPlayedKey(phone, ip) in after <==> LastPlayedKey(phone, ip) in items)
      && (LastPlayedKey(phone, ip) in items ==> after[LastPlayedKey(phone, ip)] == items[LastPlayedKey(phone, ip)])
  {
    KeyFamilies(today, phone, ip);
    if StatsKey(date) == StatsKey(today) {
      StatsKeyInjective(date, today);
    }
  }

  /** After positions (saint, devil) are set, the plays of the day win
      exactly at those positions: the play numbered `saint` gets the saint
      discount, the one numbered `devil` the devil discount, and no other
      play wins. */
  lemma SetPositionsThenPlay(today: string, saint: int, devil: int, n: nat, k: nat)
    requires ValidatePositions(saint, devil).None?
    requires 1 <= k <= n
    ensures var turns := Series(ConfiguredStats(today, saint, devil), n);
      |turns| == n && turns[k - 1].position == k
      && turns[k - 1].result.winnerType ==
           (if k == saint then Some(Saint) else if k == devil then Some(Devil) else None)
      && (turns[k - 1].result.winnerType == Some(Saint) ==> turns[k - 1].result.discount == Some(15))
      && (turns[k - 1].result.winnerType == Some(Devil) ==> turns[k - 1].result.discount == Some(10))
  {
    FreshDayOutcomes(ConfiguredStats(today, saint, devil), n, k);
    SeriesTurnAgainst(ConfiguredStats(today, saint, devil), n, k - 1);
  }

  // ---------------------------------------------------------------------
  // Wiping the game (handleResetGame)
  // ---------------------------------------------------------------------

  /** A key the reset removes: one of the two game prefixes followed by
      anything. Every play-record key and every stats key is one. */
  function IsGameKey(key: string): (g: bool)
    ensures g <==> exists rest :: key == LastPlayedPrefix + rest || key == DailyStatsPrefix + rest
    ensures (exists phone, ip :: key == LastPlayedKey(phone, ip)) ==> g
    ensures (exists date :: key == StatsKey(date)) ==> g
  {
    StartsWith(key, LastPlayedPrefix) || StartsWith(key, DailyStatsPrefix)
  }

  /** The store without its game keys: every other key keeps its value. */
  function Wiped(items: map<string, Entry>): (w: map<string, Entry>)
    ensures forall k :: k in w <==> k in items && !IsGameKey(k)
    ensures forall k :: k in w ==> w[k] == items[k]
  {
    map k | k in items && !IsGameKey(k) :: items[k]
  }

  /** Walks a snapshot of all keys and removes each game key in turn. */
  method HandleResetGame(storage: LocalStorage)
    modifies storage
    ensures storage.items == Wiped(old(storage.items))
  {
    ghost var original := storage.items;
    var keys := storage.Keys();
    while keys != {}
      invariant forall k :: k in storage.items <==> k in original && (k in keys || !IsGameKey(k))
      invariant forall k :: k in storage.items ==> storage.items[k] == original[k]
      decreases keys
    {
      var key :| key in keys;
      if IsGameKey(key) {
        storage.RemoveItem(key);
      }
      keys := keys - {key};
    }
    assert storage.items == Wiped(original);
  }

  /** Wiping twice is wiping once. */
  lemma WipeIdempotent(items: map<string, Entry>)
    ensures Wiped(Wiped(items)) == Wiped(items)
  {
    assert Wiped(Wiped(items)).Keys == Wiped(items).Keys;
  }

  /** After a reset every identity may play, no date has a record (so the
      next `GetTodayStats` creates a fresh one with no players), and the
      store is consistent. */
  lemma ResetReopensEverything(items: map<string, Entry>, phone: string, ip: string,
                               now: int, date: string)
    ensures CanPlayerPlay(Wiped(items), phone, ip, now)
    ensures StatsOn(Wiped(items), date) == None
    ensures Consistent(Wiped(items))
  {
    KeyFamilies(date, phone, ip);
  }
}
