/** The records the game stores and returns (src/types/game.ts). */
module GameTypes {
  import opened Wrappers

  /** A participant as handed to a play; only `phone` takes part in the game logic. */
  datatype Player = Player(name: string, phone: string, ipAddress: string)

  /** The per-day record stored under `dailyStats_<date>`. The two winner
      positions are optional in the TypeScript type but every writer sets them. */
  datatype DailyStats = DailyStats(
    date: string,
    totalPlayers: nat,
    saintWinnerPosition: int,
    devilWinnerPosition: int,
    saintWinnerFound: bool,
    devilWinnerFound: bool)

  datatype WinnerType = Saint | Devil

  /** Which of the three fixed (locale) messages a play produces. */
  datatype Message = SaintMessage | DevilMessage | ThanksMessage

  /** The outcome of one play. */
  datatype GameResult = GameResult(
    isWinner: bool,
    winnerType: Option<WinnerType>,
    message: Message,
    discount: Option<int>)

  /** Both winner positions are positive and they differ: what every writer
      of a `DailyStats` record guarantees. */
  predicate WinnerPositionsValid(s: DailyStats) {
    s.saintWinnerPosition >= 1 && s.devilWinnerPosition >= 1
    && s.saintWinnerPosition != s.devilWinnerPosition
  }
}
