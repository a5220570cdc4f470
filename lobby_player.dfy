/**
 * A roster entry of the current lobby model: a user id, whether the user was
 * added by force, and a readiness flag that `ReadyUp` sets in place.
 */
module LobbyPlayer {

  /** 2^61 - 1, the modulus of CPython's hash of an `int`. */
  const HashModulus: int := 0x1FFF_FFFF_FFFF_FFFF

  /**
   * CPython's `hash` of an `int`: the value reduced modulo 2^61 - 1 with the
   * sign of the value kept, where -1 (reserved for errors) becomes -2.
   */
  function IntHash(x: int): (h: int)
    ensures -HashModulus < h < HashModulus
    ensures h != -1
    ensures 0 <= x < HashModulus ==> h == x
    ensures x == -1 ==> h == -2
  {
    var m := if x >= 0 then x % HashModulus else -((-x) % HashModulus);
    if m == -1 then -2 else m
  }

  class Player {
    const id: int
    const forceAdded: bool
    var ready: bool

    constructor (id: int, forceAdded: bool)
      ensures this.id == id && this.forceAdded == forceAdded
      ensures !ready
    {
      this.id := id;
      this.forceAdded := forceAdded;
      ready := false;
    }

    /** `Player(id)`: the constructor with its default, not added by force. */
    static method NewPlayer(id: int) returns (p: Player)
      ensures fresh(p) && p.id == id && !p.forceAdded && !p.ready
    {
      p := new Player(id, false);
    }

    /** Marks the player ready; calling it again changes nothing. */
    method ReadyUp()
      modifies this`ready
      ensures ready
    {
      ready := true;
    }

    /** `__eq__`: by id against another player, `id == other` against anything else. */
    function Equals(other: Operand): (r: bool)
      ensures r <==> other.IdLike() && other.ComparedId() == id
    {
      match other
      case OtherPlayer(p) => id == p.id
      case IntValue(v) => id == v
      case NonInt => false
    }

    /** `__hash__`: the hash of the id. */
    function Hash(): int {
      IntHash(id)
    }
  }

  /**
   * The right-hand side of `==`: another player, a bare integer (such as a
   * user id), or any other value, which never equals an integer id.
   */
  datatype Operand = OtherPlayer(p: Player) | IntValue(v: int) | NonInt {
    predicate IdLike() { !NonInt? }

    function ComparedId(): int
      requires IdLike()
    {
      if OtherPlayer? then p.id else v
    }

    /** The hash Python computes for the operand (the player's hash or the integer's). */
    function OperandHash(): int
      requires IdLike()
    {
      if OtherPlayer? then p.Hash() else IntHash(v)
    }
  }

  /** Equal operands hash alike, so a player and its bare id find each other in sets and dicts. */
  lemma HashAgreesWithEquality(p: Player, other: Operand)
    requires p.Equals(other)
    ensures other.IdLike() && p.Hash() == other.OperandHash()
  {
  }

  /** Two entries with the same id are equal whatever their force-added flags. */
  lemma EqualityIgnoresForceFlag(a: Player, b: Player)
    requires a.id == b.id
    ensures a.Equals(OtherPlayer(b)) && b.Equals(OtherPlayer(a))
    ensures a.Equals(IntValue(b.id))
  {
  }
}
