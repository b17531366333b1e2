/** The daily lottery bookkeeping of `GameService` (src/services/gameService.ts):
    the 24-hour play gate, the winner-position draw, the lazily created daily
    record and a play. The service's static methods become module-level
    methods over the shared `LocalStorage`; the clock, the date key, the
    client's IP address and every `Math.random` draw are parameters. */
module GameService {
  import opened Wrappers
  import opened GameTypes
  import opened BrowserStorage

  // ---------------------------------------------------------------------
  // Store keys
  // ---------------------------------------------------------------------

  const LastPlayedPrefix: string := "lastPlayed_"
  const DailyStatsPrefix: string := "dailyStats_"

  /** `lastPlayed_<phone>_<ip>`: where a player's last play time is kept.
      The key is the family prefix, the phone, one `_` and the address. */
  function LastPlayedKey(phone: string, ip: string): (k: string)
    ensures StartsWith(k, LastPlayedPrefix)
    ensures |k| == |LastPlayedPrefix| + |phone| + 1 + |ip|
    ensures k[|LastPlayedPrefix|..|LastPlayedPrefix| + |phone|] == phone
    ensures k[|LastPlayedPrefix| + |phone|] == '_'
    ensures k[|LastPlayedPrefix| + |phone| + 1..] == ip
  {
    LastPlayedPrefix + phone + "_" + ip
  }

  /** `dailyStats_<date>`: where one day's statistics are kept. The date is
      whatever follows the family prefix. */
  function StatsKey(date: string): (k: string)
    ensures StartsWith(k, DailyStatsPrefix)
    ensures k[|DailyStatsPrefix|..] == date
  {
    DailyStatsPrefix + date
  }

  /** JavaScript's `startsWith`: `s` is `prefix` followed by something. */
  function StartsWith(s: string, prefix: string): (b: bool)
    ensures b <==> exists rest :: s == prefix + rest
  {
    var b := |prefix| <= |s| && s[..|prefix|] == prefix;
    assert b ==> s == prefix + s[|prefix|..];
    assert forall rest :: s == prefix + rest ==> s[..|prefix|] == prefix;
    b
  }

  lemma StartsWithAppend(prefix: string, rest: string)
    ensures StartsWith(prefix + rest, prefix)
  {
    assert (prefix + rest)[..|prefix|] == prefix;
  }

  /** The two key families are told apart by their prefixes: a stats key is
      never a play-record key, whatever the date, phone and IP. */
  lemma KeyFamilies(date: string, phone: string, ip: string)
    ensures StartsWith(StatsKey(date), DailyStatsPrefix)
    ensures !StartsWith(StatsKey(date), LastPlayedPrefix)
    ensures StartsWith(LastPlayedKey(phone, ip), LastPlayedPrefix)
    ensures !StartsWith(LastPlayedKey(phone, ip), DailyStatsPrefix)
    ensures StatsKey(date) != LastPlayedKey(phone, ip)
  {
    StartsWithAppend(DailyStatsPrefix, date);
    assert LastPlayedKey(phone, ip) == LastPlayedPrefix + (phone + "_" + ip);
    StartsWithAppend(LastPlayedPrefix, phone + "_" + ip);
    assert StatsKey(date)[0] == 'd';
    assert LastPlayedKey(phone, ip)[0] == 'l';
  }

  /** Different dates have different stats keys. */
  lemma StatsKeyInjective(d1: string, d2: string)
    requires StatsKey(d1) == StatsKey(d2)
    ensures d1 == d2
  {
    assert d1 == StatsKey(d1)[|DailyStatsPrefix|..];
    assert d2 == StatsKey(d2)[|DailyStatsPrefix|..];
  }

  /** For phones without an underscore (every phone the entry form submits),
      different (phone, ip) identities have different play-record keys:
      the first `_` after the prefix ends the phone. */
  lemma {:induction false} LastPlayedKeyInjective(p1: string, i1: string, p2: string, i2: string)
    requires '_' !in p1 && '_' !in p2
    requires LastPlayedKey(p1, i1) == LastPlayedKey(p2, i2)
    ensures p1 == p2 && i1 == i2
  {
    var n := |LastPlayedPrefix|;
    var k := LastPlayedKey(p1, i1);
    assert forall j :: 0 <= j < |p1| ==> k[n + j] == p1[j];
    assert forall j :: 0 <= j < |p2| ==> k[n + j] == p2[j];
    assert k[n + |p1|] == '_';
    assert LastPlayedKey(p2, i2)[n + |p2|] == '_';
    if |p1| < |p2| {
      assert false;
    } else if |p2| < |p1| {
      assert false;
    }
    assert p1 == k[n..n + |p1|];
    assert p2 == k[n..n + |p2|];
    assert i1 == k[n + |p1| + 1..];
    assert i2 == LastPlayedKey(p2, i2)[n + |p2| + 1..];
  }

  // ---------------------------------------------------------------------
  // What the stored game entries look like
  // ---------------------------------------------------------------------

  /** Every entry under a `dailyStats_` key is a statistics record for the
      date in its key, with positive and different winner positions. */
  ghost predicate Consistent(items: map<string, Entry>) {
    forall key :: key in items && StartsWith(key, DailyStatsPrefix) ==>
      items[key].StatsRecord? && StatsKey(items[key].stats.date) == key
      && WinnerPositionsValid(items[key].stats)
  }

  /** The record stored for `date`, if there is one. */
  function StatsOn(items: map<string, Entry>, date: string): Option<DailyStats> {
    var key := StatsKey(date);
    if key in items && items[key].StatsRecord? then Some(items[key].stats) else None
  }

  /** In a consistent store a present stats key holds that date's record. */
  lemma StoredStats(items: map<string, Entry>, date: string)
    requires Consistent(items)
    ensures StatsOn(items, date).Some? <==> StatsKey(date) in items
    ensures StatsOn(items, date).Some? ==>
      StatsOn(items, date).value.date == date && WinnerPositionsValid(StatsOn(items, date).value)
  {
    KeyFamilies(date, "", "");
    if StatsKey(date) in items {
      StatsKeyInjective(items[StatsKey(date)].stats.date, date);
    }
  }

  /** Recording a play time keeps the store consistent. */
  lemma RecordKeepsConsistent(items: map<string, Entry>, phone: string, ip: string, now: int)
    requires Consistent(items)
    ensures Consistent(items[LastPlayedKey(phone, ip) := PlayedAt(now)])
  {
    KeyFamilies("", phone, ip);
  }

  /** Writing a well-formed record for its own date keeps the store consistent. */
  lemma WriteStatsKeepsConsistent(items: map<string, Entry>, s: DailyStats)
    requires Consistent(items) && WinnerPositionsValid(s)
    ensures Consistent(items[StatsKey(s.date) := StatsRecord(s)])
  {
  }

  // ---------------------------------------------------------------------
  // The 24-hour play gate (canPlayerPlay)
  // ---------------------------------------------------------------------

  /** Twenty-four hours in milliseconds. */
  const DayMillis: int := 24 * 60 * 60 * 1000

  /** Whether (phone, ip) may play at time `now`: yes when no play is on
      record or the stored value is the empty string (both are falsy);
      otherwise only when the recorded play is strictly earlier than 24 hours
      before `now`. Any other stored value that is not a time does not parse
      as a date and compares false. */
  function CanPlayerPlay(items: map<string, Entry>, phone: string, ip: string, now: int): (ok: bool)
    ensures LastPlayedKey(phone, ip) !in items ==> ok
    ensures LastPlayedKey(phone, ip) in items ==>
      (ok <==> (items[LastPlayedKey(phone, ip)].PlayedAt?
                && now - items[LastPlayedKey(phone, ip)].time > DayMillis)
               || items[LastPlayedKey(phone, ip)] == Other(""))
  {
    var key := LastPlayedKey(phone, ip);
    if key !in items then true
    else
      match items[key]
      case PlayedAt(t) => t < now - DayMillis
      case Other(text) => text == []
      case StatsRecord(_) => false
  }

  /** After a play recorded at `now` (and the day's stats written), the same
      identity is refused for the next 24 hours, boundary included, and let
      in strictly after them. */
  lemma GateAfterPlay(items: map<string, Entry>, phone: string, ip: string, now: int,
                      s: DailyStats, later: int)
    ensures var after := items[LastPlayedKey(phone, ip) := PlayedAt(now)][StatsKey(s.date) := StatsRecord(s)];
      CanPlayerPlay(after, phone, ip, later) <==> later > now + DayMillis
  {
    KeyFamilies(s.date, phone, ip);
  }

  // ---------------------------------------------------------------------
  // Winner-position draw (generateRandomWinnerPosition)
  // ---------------------------------------------------------------------

  const MaxPosition: int := 50

  /** The randomness of one draw: the 1-in-7 "weekly special" coin and the
      successive integers `Math.floor(Math.random() * width)`. */
  datatype Draws = Draws(weeklySpecial: bool, values: seq<int>)

  /** Lowest drawable position: 1 on the weekly special, 14 otherwise. */
  function LowestPosition(weeklySpecial: bool): int {
    if weeklySpecial then 1 else 14
  }

  /** The scale factor applied to `Math.random()`: 50 or 37. */
  function DrawWidth(weeklySpecial: bool): int {
    if weeklySpecial then 50 else 37
  }

  /** The position produced by the i-th draw,
      `Math.floor(Math.random() * width) + lowest`: within the drawable
      range whenever the draw is one `Math.random` can give. */
  function Candidate(d: Draws, i: int): (p: int)
    requires 0 <= i < |d.values|
    ensures 0 <= d.values[i] < DrawWidth(d.weeklySpecial) ==>
      LowestPosition(d.weeklySpecial) <= p <= MaxPosition
  {
    d.values[i] + LowestPosition(d.weeklySpecial)
  }

  /** Every supplied integer is one `Math.floor(Math.random() * width)` can give. */
  ghost predicate DrawsInRange(d: Draws) {
    forall i :: 0 <= i < |d.values| ==> 0 <= d.values[i] < DrawWidth(d.weeklySpecial)
  }

  /** Some supplied draw differs from the excluded position, so the rejection
      loop stops within the supplied values. */
  ghost predicate EventuallyAccepted(d: Draws, exclude: Option<int>) {
    exists i :: 0 <= i < |d.values| && Some(Candidate(d, i)) != exclude
  }

  /** Two different supplied values: whatever position is excluded, one of
      them is accepted. */
  ghost predicate HasTwoDistinct(d: Draws) {
    exists i, j :: 0 <= i < |d.values| && 0 <= j < |d.values| && d.values[i] != d.values[j]
  }

  /** `position` is the first supplied draw that differs from `exclude`. */
  ghost predicate FirstAccepted(d: Draws, exclude: Option<int>, position: int) {
    exists k :: 0 <= k < |d.values| && position == Candidate(d, k)
                && forall j :: 0 <= j < k ==> Some(Candidate(d, j)) == exclude
  }

  lemma DistinctDrawsAccepted(d: Draws, p: int)
    requires HasTwoDistinct(d)
    ensures EventuallyAccepted(d, Some(p))
  {
    var i, j :| 0 <= i < |d.values| && 0 <= j < |d.values| && d.values[i] != d.values[j];
    if Candidate(d, i) == p {
      assert Some(Candidate(d, j)) != Some(p);
    } else {
      assert Some(Candidate(d, i)) != Some(p);
    }
  }

  /** Draws until the position differs from `exclude` and returns the first
      accepted draw: it lies in [1, 50], in [14, 50] off the weekly special,
      and is never the excluded position. */
  method GenerateRandomWinnerPosition(d: Draws, exclude: Option<int>) returns (position: int)
    requires DrawsInRange(d) && EventuallyAccepted(d, exclude)
    ensures LowestPosition(d.weeklySpecial) <= position <= MaxPosition
    ensures Some(position) != exclude
    ensures FirstAccepted(d, exclude, position)
  {
    var i := 0;
    position := Candidate(d, i);
    while Some(position) == exclude
      invariant 0 <= i < |d.values|
      invariant position == Candidate(d, i)
      invariant forall j :: 0 <= j < i ==> Some(Candidate(d, j)) == exclude
      decreases |d.values| - i
    {
      ghost var k :| 0 <= k < |d.values| && Some(Candidate(d, k)) != exclude;
      assert i < k;
      i := i + 1;
      position := Candidate(d, i);
    }
  }

  // ---------------------------------------------------------------------
  // The day's record (getTodayStats)
  // ---------------------------------------------------------------------

  /** Returns the record stored for `today`, untouched, when there is one;
      otherwise draws the saint position (the first draw), then the devil
      position (the first draw that differs from the saint's), stores a record with no players and no winner found, and returns it. */
  method GetTodayStats(storage: LocalStorage, today: string, saintDraws: Draws, devilDraws: Draws)
    returns (stats: DailyStats)
    requires Consistent(storage.items)
    requires DrawsInRange(saintDraws) && |saintDraws.values| > 0
    requires DrawsInRange(devilDraws) && HasTwoDistinct(devilDraws)
    modifies storage
    ensures Consistent(storage.items)
    ensures stats.date == today && WinnerPositionsValid(stats)
    ensures StatsOn(old(storage.items), today).Some? ==>
      stats == StatsOn(old(storage.items), today).value && storage.items == old(storage.items)
    ensures StatsOn(old(storage.items), today).None? ==>
      && stats.totalPlayers == 0 && !stats.saintWinnerFound && !stats.devilWinnerFound
      && LowestPosition(saintDraws.weeklySpecial) <= stats.saintWinnerPosition <= MaxPosition
      && LowestPosition(devilDraws.weeklySpecial) <= stats.devilWinnerPosition <= MaxPosition
      && stats.saintWinnerPosition == Candidate(saintDraws, 0)
      && FirstAccepted(devilDraws, Some(stats.saintWinnerPosition), stats.devilWinnerPosition)
      && storage.items == old(storage.items)[StatsKey(today) := StatsRecord(stats)]
  {
    StoredStats(storage.items, today);
    var statsKey := StatsKey(today);
    var existing := storage.GetItem(statsKey);
    if existing.Some? {
      stats := existing.value.stats;
      return;
    }
    assert Some(Candidate(saintDraws, 0)) != None;
    var saintPosition := GenerateRandomWinnerPosition(saintDraws, None);
    assert saintPosition == Candidate(saintDraws, 0) by {
      var k :| 0 <= k < |saintDraws.values| && saintPosition == Candidate(saintDraws, k)
               && forall j :: 0 <= j < k ==> Some(Candidate(saintDraws, j)) == None;
    }
    DistinctDrawsAccepted(devilDraws, saintPosition);
    var devilPosition := GenerateRandomWinnerPosition(devilDraws, Some(saintPosition));
    stats := DailyStats(today, 0, saintPosition, devilPosition, false, false);
    WriteStatsKeepsConsistent(storage.items, stats);
    storage.SetItem(statsKey, StatsRecord(stats));
  }

  // ---------------------------------------------------------------------
  // Winner evaluation and the stats update of one play
  // ---------------------------------------------------------------------

  /** The discount a winner type earns. */
  function Discount(t: WinnerType): int {
    match t
    case Saint => 15
    case Devil => 10
  }

  /** The outcome for the player at `position`, judged against the record as
      it was before this play: the saint slot has priority, a slot already
      found never wins again, and `isWinner`, the discount and the message
      all follow the winner type. */
  function Evaluate(position: int, stats: DailyStats): (r: GameResult)
    ensures r.winnerType == Some(Saint) <==>
      !stats.saintWinnerFound && position == stats.saintWinnerPosition
    ensures r.winnerType == Some(Devil) <==>
      !(!stats.saintWinnerFound && position == stats.saintWinnerPosition)
      && !stats.devilWinnerFound && position == stats.devilWinnerPosition
    ensures r.isWinner <==> r.winnerType.Some?
    ensures r.discount == if r.winnerType.Some? then Some(Discount(r.winnerType.value)) else None
    ensures r.message == match r.winnerType
                         case Some(Saint) => SaintMessage
                         case Some(Devil) => DevilMessage
                         case None => ThanksMessage
  {
    if !stats.saintWinnerFound && position == stats.saintWinnerPosition then
      GameResult(true, Some(Saint), SaintMessage, Some(15))
    else if !stats.devilWinnerFound && position == stats.devilWinnerPosition then
      GameResult(true, Some(Devil), DevilMessage, Some(10))
    else
      GameResult(false, None, ThanksMessage, None)
  }

  /** With different winner positions the saint priority never decides
      anything: the devil wins exactly at an unfound devil position. */
  lemma DevilWinIgnoresPriority(position: int, stats: DailyStats)
    requires WinnerPositionsValid(stats)
    ensures Evaluate(position, stats).winnerType == Some(Devil) <==>
      !stats.devilWinnerFound && position == stats.devilWinnerPosition
  {
  }

  /** The record written back after the play at `position`: the counter
      becomes the position, each found flag ends raised exactly when it was
      raised before or this play won its type, and the date and positions
      carry over. */
  function RecordOutcome(stats: DailyStats, position: nat, result: GameResult): (s: DailyStats)
    ensures s.totalPlayers == position
    ensures s.date == stats.date
    ensures s.saintWinnerPosition == stats.saintWinnerPosition
    ensures s.devilWinnerPosition == stats.devilWinnerPosition
    ensures s.saintWinnerFound <==> stats.saintWinnerFound || result.winnerType == Some(Saint)
    ensures s.devilWinnerFound <==> stats.devilWinnerFound || result.winnerType == Some(Devil)
    ensures WinnerPositionsValid(stats) ==> WinnerPositionsValid(s)
  {
    stats.(totalPlayers := position,
           saintWinnerFound := stats.saintWinnerFound || result.winnerType == Some(Saint),
           devilWinnerFound := stats.devilWinnerFound || result.winnerType == Some(Devil))
  }

  /** One play against a day's record: the position given, the outcome and
      the record afterwards. */
  datatype Turn = Turn(position: nat, result: GameResult, after: DailyStats)

  /** A play against `stats`: the position is the next one after the players
      so far, the counter becomes that position, found flags only move from
      false to true (and only by a win of their own type), and the date and
      the winner positions carry over. */
  function PlayTurn(stats: DailyStats): (t: Turn)
    ensures t.position == stats.totalPlayers + 1 && t.after.totalPlayers == t.position
    ensures t.result == Evaluate(t.position, stats)
    ensures t.after.date == stats.date
    ensures t.after.saintWinnerPosition == stats.saintWinnerPosition
    ensures t.after.devilWinnerPosition == stats.devilWinnerPosition
    ensures t.after.saintWinnerFound <==> stats.saintWinnerFound || t.result.winnerType == Some(Saint)
    ensures t.after.devilWinnerFound <==> stats.devilWinnerFound || t.result.winnerType == Some(Devil)
    ensures WinnerPositionsValid(stats) ==> WinnerPositionsValid(t.after)
  {
    var position := stats.totalPlayers + 1;
    var result := Evaluate(position, stats);
    Turn(position, result, RecordOutcome(stats, position, result))
  }

  // ---------------------------------------------------------------------
  // A play (playGame)
  // ---------------------------------------------------------------------

  datatype PlayError = AlreadyPlayedInLast24Hours

  /** One play by `player` from address `ip` at time `now` on date `today`.
      Refused, with the store untouched, when the gate says no. Otherwise the
      day's record is read (created if missing), the player gets the next
      position, the outcome is judged against the record read, the play
      time is recorded for (phone, ip) and the updated record is written.
      `cardSelected` has no influence on anything. `before` is the record
      the play was judged against. */
  method PlayGame(storage: LocalStorage, player: Player, cardSelected: int, ip: string,
                  now: int, today: string, saintDraws: Draws, devilDraws: Draws)
    returns (r: Result<GameResult, PlayError>, ghost before: DailyStats)
    requires Consistent(storage.items)
    requires DrawsInRange(saintDraws) && |saintDraws.values| > 0
    requires DrawsInRange(devilDraws) && HasTwoDistinct(devilDraws)
    modifies storage
    ensures Consistent(storage.items)
    ensures !CanPlayerPlay(old(storage.items), player.phone, ip, now) ==>
      r == Failure(AlreadyPlayedInLast24Hours) && storage.items == old(storage.items)
    ensures CanPlayerPlay(old(storage.items), player.phone, ip, now) ==>
      && before.date == today && WinnerPositionsValid(before)
      && (StatsOn(old(storage.items), today).Some? ==> before == StatsOn(old(storage.items), today).value)
      && (StatsOn(old(storage.items), today).None? ==>
            && before.totalPlayers == 0 && !before.saintWinnerFound && !before.devilWinnerFound
            && LowestPosition(saintDraws.weeklySpecial) <= before.saintWinnerPosition <= MaxPosition
            && LowestPosition(devilDraws.weeklySpecial) <= before.devilWinnerPosition <= MaxPosition
            && before.saintWinnerPosition == Candidate(saintDraws, 0)
            && FirstAccepted(devilDraws, Some(before.saintWinnerPosition), before.devilWinnerPosition))
      && r == Success(PlayTurn(before).result)
      && storage.items == old(storage.items)[LastPlayedKey(player.phone, ip) := PlayedAt(now)]
                                            [StatsKey(today) := StatsRecord(PlayTurn(before).after)]
  {
    var canPlay := CanPlayerPlay(storage.items, player.phone, ip, now);
    if !canPlay {
      r, before := Failure(AlreadyPlayedInLast24Hours), DailyStats(today, 0, 0, 0, false, false);
      return;
    }
    ghost var original := storage.items;

    var stats := GetTodayStats(storage, today, saintDraws, devilDraws);
    before := stats;
    var newPosition := stats.totalPlayers + 1;
    var result := Evaluate(newPosition, stats);

    RecordKeepsConsistent(storage.items, player.phone, ip, now);
    storage.SetItem(LastPlayedKey(player.phone, ip), PlayedAt(now));

    var updatedStats := RecordOutcome(stats, newPosition, result);
    assert WinnerPositionsValid(updatedStats) by { assert updatedStats == PlayTurn(stats).after; }
    WriteStatsKeepsConsistent(storage.items, updatedStats);
    storage.SetItem(StatsKey(today), StatsRecord(updatedStats));

    KeyFamilies(today, player.phone, ip);
    assert storage.items == original[LastPlayedKey(player.phone, ip) := PlayedAt(now)]
                                    [StatsKey(today) := StatsRecord(updatedStats)];
    r := Success(result);
  }
}
