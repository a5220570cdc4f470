/**
 * The earlier lobby model: the same roster shape as the current one, but with
 * no PENDING state, no transition table, no demotion in `add_filler` and a
 * single success result for removals.
 */
module LegacyLobby {
  import opened Common
  import opened LegacyPlayer
  import LobbyModel

  /** Outcome of `add_player` / `add_filler`. */
  datatype AddResult = Success | AlreadyInLobby | LobbyFull | LobbyCompleted

  /** Outcome of `remove_player`; the filler result exists but is never returned. */
  datatype RemoveResult = SuccessPlayer | SuccessFiller | NotInLobby | LobbyCompleted

  datatype State = Waiting | Active | Completed

  /** `pid in ps`, which compares each entry's id with the bare id. */
  predicate Contains(ps: seq<Player>, pid: int) {
    exists i :: 0 <= i < |ps| && ps[i].id == pid
  }

  predicate UniqueIds(ps: seq<Player>) {
    forall i, j :: 0 <= i < j < |ps| ==> ps[i].id != ps[j].id
  }

  predicate Disjoint(a: seq<Player>, b: seq<Player>) {
    forall i, j :: 0 <= i < |a| && 0 <= j < |b| ==> a[i].id != b[j].id
  }

  /** The position of the first entry with that id. */
  function FirstIndex(ps: seq<Player>, pid: int): (k: nat)
    requires Contains(ps, pid)
    ensures k < |ps| && ps[k].id == pid
    ensures forall j :: 0 <= j < k ==> ps[j].id != pid
  {
    if ps[0].id == pid then 0
    else
      assert Contains(ps[1..], pid) by {
        var i :| 0 <= i < |ps| && ps[i].id == pid;
        assert ps[1..][i - 1] == ps[i];
      }
      1 + FirstIndex(ps[1..], pid)
  }

  /**
   * `ps.remove(Player(pid))`, on a list known to hold the id: deletes the
   * first entry with that id, whatever its flag, and keeps the rest in order.
   */
  function RemoveFirst(ps: seq<Player>, pid: int): (r: seq<Player>)
    requires Contains(ps, pid)
    ensures |r| == |ps| - 1
    ensures r == ps[..FirstIndex(ps, pid)] + ps[FirstIndex(ps, pid) + 1..]
  {
    if ps[0].id == pid then ps[1..]
    else
      var k := FirstIndex(ps[1..], pid);
      var rest := RemoveFirst(ps[1..], pid);
      DeletionUnderHead(ps, k);
      [ps[0]] + rest
  }

  /** Deleting position `k` of the tail and putting the head back deletes position `k + 1`. */
  lemma DeletionUnderHead<T>(ps: seq<T>, k: nat)
    requires k + 1 < |ps|
    ensures [ps[0]] + (ps[1..][..k] + ps[1..][k + 1..]) == ps[..k + 1] + ps[k + 2..]
  {
    assert ps[1..][..k] == ps[1..k + 1] && ps[1..][k + 1..] == ps[k + 2..];
    assert [ps[0]] + ps[1..k + 1] == ps[..k + 1];
  }

  /** Deleting one entry keeps ids unique, keeps both lists apart, and drops a unique id entirely. */
  lemma DeletionPreservesInvariants(ps: seq<Player>, other: seq<Player>, k: nat)
    requires k < |ps|
    ensures UniqueIds(ps) ==> UniqueIds(ps[..k] + ps[k + 1..])
    ensures UniqueIds(ps) ==> !Contains(ps[..k] + ps[k + 1..], ps[k].id)
    ensures Disjoint(ps, other) ==> Disjoint(ps[..k] + ps[k + 1..], other)
    ensures Disjoint(other, ps) ==> Disjoint(other, ps[..k] + ps[k + 1..])
  {
    var r := ps[..k] + ps[k + 1..];
    assert forall i :: 0 <= i < |r| ==> r[i] == ps[if i < k then i else i + 1];
  }

  class Lobby {
    const id: int
    const owner: int
    var time: int
    const maxPlayers: int
    const game: string
    const startedAt: int
    var state: State
    var players: seq<Player>
    var fillers: seq<Player>

    /** Roster invariant: ids unique in each list, no id in both, players within capacity. */
    ghost predicate Valid()
      reads this`players, this`fillers
    {
      && UniqueIds(players)
      && UniqueIds(fillers)
      && Disjoint(players, fillers)
      && |players| <= LobbyModel.Capacity(maxPlayers)
    }

    /** A new lobby waits, with its owner as the only player. */
    constructor (id: int, owner: int, time: int, maxPlayers: int, game: string, startedAt: int)
      ensures Valid()
      ensures this.id == id && this.owner == owner && this.time == time
      ensures this.maxPlayers == maxPlayers && this.game == game && this.startedAt == startedAt
      ensures state == Waiting
      ensures players == [NewPlayer(owner)] && fillers == []
    {
      this.id := id;
      this.owner := owner;
      this.time := time;
      this.maxPlayers := maxPlayers;
      this.game := game;
      this.startedAt := startedAt;
      state := Waiting;
      players := [NewPlayer(owner)];
      fillers := [];
    }

    /** `in_lobby`: the id is on either list, and on exactly one of them under the invariant. */
    predicate InLobby(pid: int)
      reads this`players, this`fillers
      ensures InLobby(pid) <==> Contains(players + fillers, pid)
      ensures Valid() ==> (InLobby(pid) <==> Contains(players, pid) != Contains(fillers, pid))
    {
      var all := players + fillers;
      assert Contains(all, pid) ==> Contains(players, pid) || Contains(fillers, pid) by {
        if Contains(all, pid) {
          var i :| 0 <= i < |all| && all[i].id == pid;
          if i >= |players| {
            assert fillers[i - |players|] == all[i];
          }
        }
      }
      assert Contains(players, pid) ==> Contains(all, pid) by {
        if Contains(players, pid) {
          var j :| 0 <= j < |players| && players[j].id == pid;
          assert all[j] == players[j];
        }
      }
      assert Contains(fillers, pid) ==> Contains(all, pid) by {
        if Contains(fillers, pid) {
          var j :| 0 <= j < |fillers| && fillers[j].id == pid;
          assert all[|players| + j] == fillers[j];
        }
      }
      Contains(players, pid) || Contains(fillers, pid)
    }

    method EditTime(newTime: int)
      modifies this`time
      ensures time == newTime
    {
      time := newTime;
    }

    /**
     * `add_player`: joins as a player while there is room, leaving the filler
     * list if the user was on it.
     */
    method AddPlayer(pid: int, forced: bool) returns (r: AddResult)
      requires Valid()
      modifies this`players, this`fillers
      ensures Valid()
      ensures state == Completed ==> r == AddResult.LobbyCompleted
      ensures state != Completed && Contains(old(players), pid) ==> r == AlreadyInLobby
      ensures state != Completed && !Contains(old(players), pid) ==>
                r == (if |old(players)| < maxPlayers then Success else LobbyFull)
      ensures r != Success ==> players == old(players) && fillers == old(fillers)
      ensures r == Success ==>
                && players == old(players) + [Player(pid, forced)]
                && (Contains(old(fillers), pid) ==> fillers == RemoveFirst(old(fillers), pid))
                && (!Contains(old(fillers), pid) ==> fillers == old(fillers))
    {
      if state == Completed {
        return AddResult.LobbyCompleted;
      }
      if Contains(players, pid) {
        return AlreadyInLobby;
      } else if |players| < maxPlayers {
        if Contains(fillers, pid) {
          var k := FirstIndex(fillers, pid);
          DeletionPreservesInvariants(fillers, players, k);
          fillers := RemoveFirst(fillers, pid);
        }
        players := players + [Player(pid, forced)];
        return Success;
      } else {
        return LobbyFull;
      }
    }

    /**
     * `add_filler`: refuses anyone already in the lobby; appends only while the
     * player list has room, and otherwise falls through returning nothing.
     */
    method AddFiller(pid: int, forced: bool) returns (r: Option<AddResult>)
      requires Valid()
      modifies this`fillers
      ensures Valid()
      ensures state == Completed ==> r == Some(AddResult.LobbyCompleted)
      ensures state != Completed && old(InLobby(pid)) ==> r == Some(AlreadyInLobby)
      ensures state != Completed && !old(InLobby(pid)) ==>
                r == (if |players| < maxPlayers then Some(Success) else None)
      ensures r == Some(Success) ==> fillers == old(fillers) + [Player(pid, forced)]
      ensures r != Some(Success) ==> fillers == old(fillers)
    {
      if state == Completed {
        return Some(AddResult.LobbyCompleted);
      }
      if InLobby(pid) {
        return Some(AlreadyInLobby);
      } else if |players| < maxPlayers {
        assert !Contains(players, pid) && !Contains(fillers, pid);
        fillers := fillers + [Player(pid, forced)];
        return Some(Success);
      }
      return None;
    }

    /** `remove_player`: leaves whichever list holds the user, reported as a player removal either way. */
    method RemovePlayer(pid: int) returns (r: RemoveResult)
      requires Valid()
      modifies this`players, this`fillers
      ensures Valid()
      ensures r != SuccessFiller
      ensures state == Completed ==> r == RemoveResult.LobbyCompleted
      ensures state != Completed ==> (r == SuccessPlayer <==> old(InLobby(pid)))
      ensures state != Completed && !old(InLobby(pid)) ==> r == NotInLobby
      ensures r != SuccessPlayer ==> players == old(players) && fillers == old(fillers)
      ensures r == SuccessPlayer && Contains(old(players), pid) ==>
                players == RemoveFirst(old(players), pid) && fillers == old(fillers)
      ensures r == SuccessPlayer && !Contains(old(players), pid) ==>
                fillers == RemoveFirst(old(fillers), pid) && players == old(players)
      ensures r == SuccessPlayer ==> !InLobby(pid)
    {
      if state == Completed {
        return RemoveResult.LobbyCompleted;
      }
      if Contains(players, pid) {
        var k := FirstIndex(players, pid);
        DeletionPreservesInvariants(players, fillers, k);
        players := RemoveFirst(players, pid);
        return SuccessPlayer;
      } else if Contains(fillers, pid) {
        var k := FirstIndex(fillers, pid);
        DeletionPreservesInvariants(fillers, players, k);
        fillers := RemoveFirst(fillers, pid);
        return SuccessPlayer;
      } else {
        return NotInLobby;
      }
    }

    /**
     * `_get_final_players`: the players topped up with the earliest fillers.
     * Every entry is a player or a filler, and under the invariant no id is
     * listed twice.
     */
    function GetFinalPlayers(): (r: seq<Player>)
      reads this`players, this`fillers
      ensures |players| <= |r| && r[..|players|] == players
      ensures forall i :: 0 <= i < |r| ==> r[i] in players || r[i] in fillers
      ensures Valid() ==> UniqueIds(r)
    {
      var roster := LobbyModel.FinalRoster(players, fillers, maxPlayers);
      assert Valid() ==> UniqueIds(roster) by {
        var needed := maxPlayers - |players|;
        if Valid() && needed > 0 && fillers != [] {
          PromotionPreservesInvariants(players, fillers, Min(needed, |fillers|), maxPlayers);
        }
      }
      roster
    }

    /**
     * `start`: only from WAITING; goes ACTIVE when the roster is full or the
     * start is forced, moving the fillers it uses in order; otherwise stays
     * WAITING.
     */
    method Start(force: bool) returns (success: bool, roster: seq<Player>)
      requires Valid()
      modifies this`state, this`players, this`fillers
      ensures Valid()
      ensures old(state) != Waiting ==>
                !success && roster == [] && state == old(state)
                && players == old(players) && fillers == old(fillers)
      ensures old(state) == Waiting ==>
                && roster == LobbyModel.FinalRoster(old(players), old(fillers), maxPlayers)
                && (success <==> |roster| == maxPlayers || force)
                && (success ==>
                      && state == Active
                      && players == roster
                      && fillers == old(fillers)[|roster| - |old(players)|..])
                && (!success ==> state == Waiting && players == old(players) && fillers == old(fillers))
    {
      if state != Waiting {
        return false, [];
      }
      var finalPlayers := GetFinalPlayers();
      if |finalPlayers| == maxPlayers || force {
        state := Active;
        var needed := |finalPlayers| - |players|;
        if needed > 0 {
          PromotionPreservesInvariants(players, fillers, needed, maxPlayers);
          players := players + fillers[..needed];
          fillers := fillers[needed..];
        }
        return true, finalPlayers;
      }
      return false, finalPlayers;
    }

    /** `end`: COMPLETED from any state, with no transition check. */
    method End()
      modifies this`state
      ensures state == Completed
    {
      state := Completed;
    }
  }

  /** Moving the first `needed` fillers to the end of the players keeps the roster invariant. */
  lemma PromotionPreservesInvariants(players: seq<Player>, fillers: seq<Player>, needed: nat, maxPlayers: int)
    requires UniqueIds(players) && UniqueIds(fillers) && Disjoint(players, fillers)
    requires 0 < needed <= |fillers| && |players| + needed <= maxPlayers
    ensures UniqueIds(players + fillers[..needed])
    ensures UniqueIds(fillers[needed..])
    ensures Disjoint(players + fillers[..needed], fillers[needed..])
  {
    var promoted := players + fillers[..needed];
    var rest := fillers[needed..];
    assert forall i :: |players| <= i < |promoted| ==> promoted[i] == fillers[i - |players|];
    assert forall j :: 0 <= j < |rest| ==> rest[j] == fillers[needed + j];
  }
}
