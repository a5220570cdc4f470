/**
 * A roster entry of the earlier lobby model: an immutable user id and a
 * force-added flag, compared and hashed by id alone.
 */
module LegacyPlayer {
  import LobbyPlayer

  datatype Player = Player(id: int, forceAdded: bool) {
    /** `__eq__`: by id against another player, `id == other` against anything else. */
    function Equals(other: Operand): (r: bool)
      ensures r <==> other.IdLike() && other.ComparedId() == id
    {
      match other
      case OtherPlayer(p) => id == p.id
      case IntValue(v) => id == v
      case NonInt => false
    }

    /** `__hash__`: the hash of the id. */
    function Hash(): int {
      LobbyPlayer.IntHash(id)
    }
  }

  /** `Player(id)`: the flag defaults to not force-added. */
  function NewPlayer(id: int): (p: Player)
    ensures p.id == id && !p.forceAdded
  {
    Player(id, false)
  }

  /** The right-hand side of `==`: another player, a bare integer, or any other value. */
  datatype Operand = OtherPlayer(p: Player) | IntValue(v: int) | NonInt {
    predicate IdLike() { !NonInt? }

    function ComparedId(): int
      requires IdLike()
    {
      if OtherPlayer? then p.id else v
    }

    /** The hash Python computes for the operand. */
    function OperandHash(): int
      requires IdLike()
    {
      if OtherPlayer? then p.Hash() else LobbyPlayer.IntHash(v)
    }
  }

  /** Equal operands hash alike. */
  lemma HashAgreesWithEquality(a: Player, other: Operand)
    requires a.Equals(other)
    ensures other.IdLike() && a.Hash() == other.OperandHash()
  {
  }

  /**
   * Entries with the same id are equal whatever their flags, so
   * `remove(Player(id))` matches a stored force-added entry.
   */
  lemma EqualityIgnoresForceFlag(a: Player, id: int)
    requires a.id == id
    ensures NewPlayer(id).Equals(OtherPlayer(a)) && a.Equals(OtherPlayer(NewPlayer(id)))
    ensures a.Equals(IntValue(id))
  {
  }
}
