/** Day 2: scoring a rock-paper-scissors strategy guide. Moves and outcomes carry the
    values of their Rust enum discriminants; `get_result` is a fixed table. */
module RockPaperScissors {
  import opened Options

  datatype Move = Rock | Paper | Scissors
  datatype Outcome = Win | Lose | Tie

  /** The discriminant of `Move` (`Rock = 1`, `Paper = 2`, `Scissors = 3`): a value from 1 to 3. */
  function MoveValue(m: Move): (v: nat)
    ensures 1 <= v <= 3
  {
    match m
    case Rock => 1
    case Paper => 2
    case Scissors => 3
  }

  /** The discriminant of `Outcome` (`Win = 6`, `Lose = 0`, `Tie = 3`): a multiple of 3 that
      orders the outcomes from loss to win. */
  function OutcomeValue(o: Outcome): (v: nat)
    ensures v % 3 == 0 && v <= 6
    ensures o == Lose <==> v == 0
    ensures o == Win <==> v == 6
  {
    match o
    case Win => 6
    case Lose => 0
    case Tie => 3
  }

  /** The rules of the game, independently of the table below: each move beats exactly one other. */
  predicate Beats(a: Move, b: Move)
  {
    (a == Rock && b == Scissors) || (a == Paper && b == Rock) || (a == Scissors && b == Paper)
  }

  /** The move values follow the game: each move is worth one more than the move it beats,
      counting modulo 3, so no two moves share a value. */
  lemma BeatsIsOneMore(a: Move, b: Move)
    ensures Beats(a, b) <==> MoveValue(a) % 3 == (MoveValue(b) + 1) % 3
    ensures MoveValue(a) == MoveValue(b) <==> a == b
  {
  }

  /** `get_result`: the outcome for the player, as a nine-entry table. */
  function GetResult(player: Move, opponent: Move): (r: Outcome)
    ensures r == Tie <==> player == opponent
    ensures r == Win <==> Beats(player, opponent)
    ensures r == Lose <==> Beats(opponent, player)
  {
    match (player, opponent)
    case (Rock, Rock) => Tie
    case (Rock, Paper) => Lose
    case (Rock, Scissors) => Win
    case (Paper, Rock) => Win
    case (Paper, Paper) => Tie
    case (Paper, Scissors) => Lose
    case (Scissors, Rock) => Lose
    case (Scissors, Paper) => Win
    case (Scissors, Scissors) => Tie
  }

  /** `get_score`: the move's value plus the outcome's value. */
  function GetScore(player: Move, outcome: Outcome): (s: int)
    ensures 1 <= s <= 9
    ensures s % 3 == MoveValue(player) % 3
    ensures s / 3 == OutcomeValue(outcome) / 3 + (if player == Scissors then 1 else 0)
  {
    MoveValue(player) + OutcomeValue(outcome)
  }

  /** `get_move`: `A`/`X` is rock, `B`/`Y` paper, `C`/`Z` scissors; anything else panics (`None`). */
  function GetMove(m: string): (r: Option<Move>)
    ensures r.Some? <==> m in {"A", "B", "C", "X", "Y", "Z"}
  {
    match m
    case "A" => Some(Rock)
    case "X" => Some(Rock)
    case "B" => Some(Paper)
    case "Y" => Some(Paper)
    case "C" => Some(Scissors)
    case "Z" => Some(Scissors)
    case _ => None
  }

  /** `get_required_outcome`: `X` lose, `Y` tie, `Z` win; anything else panics (`None`). */
  function GetRequiredOutcome(o: string): (r: Option<Outcome>)
    ensures r.Some? <==> o in {"X", "Y", "Z"}
  {
    match o
    case "X" => Some(Lose)
    case "Y" => Some(Tie)
    case "Z" => Some(Win)
    case _ => None
  }

  /** `get_required_move`: the move that yields `outcome` against `opponent`, by the game's
      rules: the same move to tie, the move that beats it to win, the one it beats to lose. */
  function GetRequiredMove(opponent: Move, outcome: Outcome): (m: Move)
    ensures outcome == Tie <==> m == opponent
    ensures outcome == Win <==> Beats(m, opponent)
    ensures outcome == Lose <==> Beats(opponent, m)
  {
    match (opponent, outcome)
    case (Rock, Lose) => Scissors
    case (Rock, Tie) => Rock
    case (Rock, Win) => Paper
    case (Paper, Lose) => Rock
    case (Paper, Tie) => Paper
    case (Paper, Win) => Scissors
    case (Scissors, Lose) => Paper
    case (Scissors, Tie) => Scissors
    case (Scissors, Win) => Rock
  }

  /** The letters of the guide, for the round trips below. */
  function OpponentLetter(m: Move): string
  {
    match m
    case Rock => "A"
    case Paper => "B"
    case Scissors => "C"
  }

  function PlayerLetter(m: Move): string
  {
    match m
    case Rock => "X"
    case Paper => "Y"
    case Scissors => "Z"
  }

  function OutcomeLetter(o: Outcome): string
  {
    match o
    case Lose => "X"
    case Tie => "Y"
    case Win => "Z"
  }

  /** Both columns of the guide decode to the move they name. */
  lemma GetMoveRoundTrip(m: Move)
    ensures GetMove(OpponentLetter(m)) == Some(m)
    ensures GetMove(PlayerLetter(m)) == Some(m)
  {
  }

  lemma GetRequiredOutcomeRoundTrip(o: Outcome)
    ensures GetRequiredOutcome(OutcomeLetter(o)) == Some(o)
  {
  }

  /** Swapping the players swaps a win and a loss. */
  lemma ResultAntisymmetric(a: Move, b: Move)
    ensures GetResult(a, b) == Win <==> GetResult(b, a) == Lose
    ensures GetResult(a, b) == Tie <==> GetResult(b, a) == Tie
  {
  }

  /** The required move really produces the required outcome ... */
  lemma RequiredMoveAchievesOutcome(opponent: Move, outcome: Outcome)
    ensures GetResult(GetRequiredMove(opponent, outcome), opponent) == outcome
  {
  }

  /** ... and it is the only move that does. */
  lemma RequiredMoveIsUnique(player: Move, opponent: Move)
    ensures GetRequiredMove(opponent, GetResult(player, opponent)) == player
  {
  }

  /** For one opponent move, the three outcomes need three different moves. */
  lemma RequiredMovesDistinct(opponent: Move, o1: Outcome, o2: Outcome)
    requires o1 != o2
    ensures GetRequiredMove(opponent, o1) != GetRequiredMove(opponent, o2)
  {
    RequiredMoveAchievesOutcome(opponent, o1);
    RequiredMoveAchievesOutcome(opponent, o2);
  }
}
