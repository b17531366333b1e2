/** Successive successful plays on one date. Each successful `PlayGame`
    writes back `PlayTurn(before).after` for the record it read, so a run of
    plays on one date with nothing else writing that date's record is the
    iteration of `PlayTurn` defined here. */
module PlaySeries {
  import opened Wrappers
  import opened GameTypes
  import opened GameService

  /** The turns of `n` successive plays starting from `stats`. */
  function Series(stats: DailyStats, n: nat): seq<Turn>
    decreases n
  {
    if n == 0 then [] else [PlayTurn(stats)] + Series(PlayTurn(stats).after, n - 1)
  }

  /** The record after `n` successive plays starting from `stats`. */
  function StatsAfter(stats: DailyStats, n: nat): DailyStats
    decreases n
  {
    if n == 0 then stats else StatsAfter(PlayTurn(stats).after, n - 1)
  }

  /** How many turns won the given winner type. */
  function CountWins(turns: seq<Turn>, t: WinnerType): nat {
    if turns == [] then 0
    else (if turns[0].result.winnerType == Some(t) then 1 else 0) + CountWins(turns[1..], t)
  }

  /** Positions are allocated consecutively after the players so far, with
      no gap and no repeat; the counter ends at the number of positions ever
      given; the date and the winner positions never change; the record
      stays well formed. */
  lemma {:induction false} SeriesAllocatesConsecutively(stats: DailyStats, n: nat)
    ensures |Series(stats, n)| == n
    ensures forall i :: 0 <= i < n ==> Series(stats, n)[i].position == stats.totalPlayers + 1 + i
    ensures StatsAfter(stats, n).totalPlayers == stats.totalPlayers + n
    ensures StatsAfter(stats, n).date == stats.date
    ensures StatsAfter(stats, n).saintWinnerPosition == stats.saintWinnerPosition
    ensures StatsAfter(stats, n).devilWinnerPosition == stats.devilWinnerPosition
    ensures WinnerPositionsValid(stats) ==> WinnerPositionsValid(StatsAfter(stats, n))
    decreases n
  {
    if n > 0 {
      var t := PlayTurn(stats);
      SeriesAllocatesConsecutively(t.after, n - 1);
      var rest := Series(t.after, n - 1);
      assert Series(stats, n) == [t] + rest;
      forall i | 0 <= i < n
        ensures Series(stats, n)[i].position == stats.totalPlayers + 1 + i
      {
        if i > 0 {
          assert Series(stats, n)[i] == rest[i - 1];
        }
      }
    }
  }

  /** The saint discount is awarded at most once per date: in any run of
      plays exactly one turn wins it when its slot was still open and its
      position is among those handed out, and none otherwise; the saint
      flag ends up raised exactly when it was raised before or won here. */
  lemma {:induction false} SaintAwardedAtMostOnce(stats: DailyStats, n: nat)
    ensures CountWins(Series(stats, n), Saint) <= 1
    ensures CountWins(Series(stats, n), Saint) == 1 <==>
      !stats.saintWinnerFound
      && stats.totalPlayers < stats.saintWinnerPosition <= stats.totalPlayers + n
    ensures StatsAfter(stats, n).saintWinnerFound <==>
      stats.saintWinnerFound || CountWins(Series(stats, n), Saint) == 1
    decreases n
  {
    if n > 0 {
      var t := PlayTurn(stats);
      SaintAwardedAtMostOnce(t.after, n - 1);
      assert Series(stats, n)[1..] == Series(t.after, n - 1);
    }
  }

  /** The devil discount likewise: when the two winner positions differ,
      exactly one turn wins it if its slot was open and its position is
      handed out in the run, and none otherwise. */
  lemma {:induction false} DevilAwardedAtMostOnce(stats: DailyStats, n: nat)
    requires stats.saintWinnerPosition != stats.devilWinnerPosition
    ensures CountWins(Series(stats, n), Devil) <= 1
    ensures CountWins(Series(stats, n), Devil) == 1 <==>
      !stats.devilWinnerFound
      && stats.totalPlayers < stats.devilWinnerPosition <= stats.totalPlayers + n
    ensures StatsAfter(stats, n).devilWinnerFound <==>
      stats.devilWinnerFound || CountWins(Series(stats, n), Devil) == 1
    decreases n
  {
    if n > 0 {
      var t := PlayTurn(stats);
      DevilAwardedAtMostOnce(t.after, n - 1);
      assert Series(stats, n)[1..] == Series(t.after, n - 1);
    }
  }

  /** On a fresh day the k-th play (counting from 1) gets position k; it wins
      the saint discount exactly when k is the saint position and the devil
      discount exactly when k is the devil position. */
  lemma FreshDayOutcomes(stats: DailyStats, n: nat, k: nat)
    requires stats.totalPlayers == 0 && !stats.saintWinnerFound && !stats.devilWinnerFound
    requires WinnerPositionsValid(stats)
    requires 1 <= k <= n
    ensures |Series(stats, n)| == n
    ensures Series(stats, n)[k - 1].position == k
    ensures Series(stats, n)[k - 1].result.winnerType ==
      if k == stats.saintWinnerPosition then Some(Saint)
      else if k == stats.devilWinnerPosition then Some(Devil)
      else None
  {
    SeriesAllocatesConsecutively(stats, n);
    SeriesTurnAgainst(stats, n, k - 1);
    SeriesAllocatesConsecutively(stats, k - 1);
    SaintAwardedAtMostOnce(stats, k - 1);
    DevilAwardedAtMostOnce(stats, k - 1);
  }

  /** The i-th turn of a run is the play against the record after i plays. */
  lemma {:induction false} SeriesTurnAgainst(stats: DailyStats, n: nat, i: nat)
    requires i < n
    ensures |Series(stats, n)| == n
    ensures Series(stats, n)[i] == PlayTurn(StatsAfter(stats, i))
    decreases i
  {
    SeriesAllocatesConsecutively(stats, n);
    if i > 0 {
      SeriesTurnAgainst(PlayTurn(stats).after, n - 1, i - 1);
      assert Series(stats, n)[i] == Series(PlayTurn(stats).after, n - 1)[i - 1];
    }
  }
}
