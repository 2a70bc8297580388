/** Players of a board game and the character codes used to print and parse them. */
module Players {

  /** The player enumeration; `Size` is the sentinel used for "no such player". */
  datatype Player = None | P1 | P2 | Size

  /** A player proper: one of the two sides. */
  predicate IsSide(p: Player) {
    p == P1 || p == P2
  }

  /** The character that stands for a player: N, B (black) and W (white); '?' otherwise. */
  function PlayerToChar(p: Player): (c: char)
    ensures c in "NBW?"
    ensures (c == '?') <==> p == Size
  {
    match p
    case None => 'N'
    case P1 => 'B'
    case P2 => 'W'
    case Size => '?'
  }

  /** Parses a player character. Black and white are accepted in either case,
      but only the upper-case N stands for no player. */
  function CharToPlayer(c: char): (p: Player)
    ensures p == None <==> c == 'N'
    ensures p == P1 <==> c == 'B' || c == 'b'
    ensures p == P2 <==> c == 'W' || c == 'w'
    ensures p == Size <==> c !in "NBbWw"
  {
    match c
    case 'N' => None
    case 'B' => P1
    case 'b' => P1
    case 'W' => P2
    case 'w' => P2
    case _ => Size
  }

  /** The player who moves after `player` in a game of `numPlayer` players. */
  function GetNextPlayer(player: Player, numPlayer: int): (next: Player)
    ensures numPlayer == 1 ==> next == player
    ensures numPlayer == 2 ==> IsSide(next) && (next == P2 <==> player == P1)
    ensures numPlayer != 1 && numPlayer != 2 ==> next == None
  {
    if numPlayer == 1 then player
    else if numPlayer == 2 then (if player == P1 then P2 else P1)
    else None
  }

  /** Printing a player and parsing the character back gives the player again. */
  lemma CharRoundTrip(p: Player)
    ensures CharToPlayer(PlayerToChar(p)) == p
  {
  }

  /** Parsing a character and printing the player again gives the upper-case form. */
  lemma PlayerRoundTrip(c: char)
    requires c in "NBbWw"
    ensures PlayerToChar(CharToPlayer(c)) == (if c == 'b' then 'B' else if c == 'w' then 'W' else c)
  {
  }

  /** With two players the successor function swaps the two sides. */
  lemma NextPlayerInvolution(p: Player)
    requires IsSide(p)
    ensures GetNextPlayer(GetNextPlayer(p, 2), 2) == p
    ensures GetNextPlayer(p, 2) != p
  {
  }
}
