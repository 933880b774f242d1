/** The two players of a game and the opponent lookup. */
module Players {
  import opened Grid

  /** The mark a player writes into a cell: never Empty. */
  type Mark = m: int | m == P1 || m == P2 witness P1

  /** A player's identity (its mark) and whether the automated search plays for it.
      Score and display name belong to the presentation layer and are not modelled. */
  datatype Player = Player(id: Mark, aiControlled: bool)

  /** The opponent of `player` in the game played by `player1` and `player2`:
      `player2` for `player1`, and `player1` for anyone else. */
  function Opponent(player1: Player, player2: Player, player: Player): (q: Player)
    ensures q == player1 || q == player2
    ensures player1 != player2 && (player == player1 || player == player2) ==> q != player
  {
    if player == player1 then player2 else player1
  }

  /** Looking up the opponent twice gives back either of the two players. */
  lemma OpponentInvolution(player1: Player, player2: Player, player: Player)
    requires player == player1 || player == player2
    ensures Opponent(player1, player2, Opponent(player1, player2, player)) == player
  {
  }
}
