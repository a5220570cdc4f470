/**
 * The lobby registry: one live lobby per owner, keyed by the owner's id, with
 * lobby ids handed out from an increasing counter.
 */
module LobbyManagement {
  import opened Common
  import opened LobbyEnums
  import opened LobbyModel

  /** The key order left after `del d[x]`: every occurrence of `x` dropped, the rest kept in order. */
  function Erase(s: seq<int>, x: int): (r: seq<int>)
    ensures forall y :: y in r <==> y in s && y != x
  {
    if s == [] then []
    else if s[0] == x then Erase(s[1..], x)
    else [s[0]] + Erase(s[1..], x)
  }

  /** On distinct keys, erasing a present key deletes exactly its one position. */
  lemma {:induction false} EraseDeletesOne(s: seq<int>, x: int, k: nat)
    requires Distinct(s) && k < |s| && s[k] == x
    ensures Erase(s, x) == s[..k] + s[k + 1..]
  {
    if k == 0 {
      assert x !in s[1..] by {
        forall i | 0 <= i < |s[1..]| ensures s[1..][i] != x {
          assert s[1..][i] == s[i + 1];
        }
      }
      EraseAbsent(s[1..], x);
    } else {
      assert Distinct(s[1..]) by {
        forall i, j | 0 <= i < j < |s[1..]| ensures s[1..][i] != s[1..][j] {
          assert s[1..][i] == s[i + 1] && s[1..][j] == s[j + 1];
        }
      }
      EraseDeletesOne(s[1..], x, k - 1);
      assert [s[0]] + (s[1..][..k - 1] + s[1..][k..]) == s[..k] + s[k + 1..];
    }
  }

  /** Erasing an absent key changes nothing. */
  lemma {:induction false} EraseAbsent(s: seq<int>, x: int)
    requires x !in s
    ensures Erase(s, x) == s
  {
    if s != [] {
      EraseAbsent(s[1..], x);
    }
  }

  /**
   * Each lobby is filed under its own owner; the insertion order lists
   * exactly the keys, once each; ids are below the counter and increase
   * along the insertion order (so they are distinct).
   */
  ghost predicate Registry(lobbies: map<int, Lobby>, order: seq<int>, idCounter: int) {
    && idCounter >= 0
    && Distinct(order)
    && (forall i :: 0 <= i < |order| ==> order[i] in lobbies)
    && (forall o :: o in lobbies ==> o in order)
    && (forall o :: o in lobbies ==> lobbies[o].owner == o && 0 <= lobbies[o].id < idCounter)
    && (forall i, j :: 0 <= i < j < |order| ==> lobbies[order[i]].id < lobbies[order[j]].id)
  }

  /** After erasing the key at position k, position i holds what position i or i + 1 held. */
  lemma EraseShifts(order: seq<int>, x: int, k: nat)
    requires Distinct(order) && k < |order| && order[k] == x
    ensures |Erase(order, x)| == |order| - 1
    ensures forall i :: 0 <= i < |order| - 1 ==>
              Erase(order, x)[i] == order[if i < k then i else i + 1]
  {
    EraseDeletesOne(order, x, k);
  }

  /** Deleting a key keeps the registry invariant. */
  lemma RemovalKeepsRegistry(lobbies: map<int, Lobby>, order: seq<int>, idCounter: int, x: int)
    requires Registry(lobbies, order, idCounter) && x in lobbies
    ensures Registry(lobbies - {x}, Erase(order, x), idCounter)
  {
    var k :| 0 <= k < |order| && order[k] == x;
    EraseShifts(order, x, k);
    var rest := Erase(order, x);
    var m := lobbies - {x};
    forall i | 0 <= i < |rest| ensures rest[i] in m {
      var i' := if i < k then i else i + 1;
      assert rest[i] == order[i'] && order[i'] != x;
    }
    forall i, j | 0 <= i < j < |rest| ensures rest[i] != rest[j] && m[rest[i]].id < m[rest[j]].id {
      var i' := if i < k then i else i + 1;
      var j' := if j < k then j else j + 1;
      assert rest[i] == order[i'] && rest[j] == order[j'];
    }
  }

  class LobbyManager {
    /** owner id -> that owner's lobby */
    var lobbies: map<int, Lobby>
    /** The owners in the dict's insertion order, which is the order its values are visited in. */
    var order: seq<int>
    var idCounter: int

    /** The registry invariant over the current fields. */
    ghost predicate Valid()
      reads this
    {
      Registry(lobbies, order, idCounter)
    }

    constructor ()
      ensures Valid()
      ensures lobbies == map[] && order == [] && idCounter == 0
    {
      lobbies := map[];
      order := [];
      idCounter := 0;
    }

    /**
     * `create_lobby`: refuses an owner who already has a lobby; otherwise
     * registers a fresh waiting lobby whose id is the counter, then bumps the
     * counter, so the new id exceeds every id already handed out.
     */
    method CreateLobby(ownerId: int, time: int, maxPlayers: int, game: string, now: int) returns (r: Lobby?)
      requires Valid()
      modifies this
      ensures Valid()
      ensures ownerId in old(lobbies) ==>
                r == null && lobbies == old(lobbies) && order == old(order) && idCounter == old(idCounter)
      ensures ownerId !in old(lobbies) ==>
                && r != null && fresh(r) && r.Valid()
                && r.id == old(idCounter) && r.owner == ownerId && r.time == time
                && r.maxPlayers == maxPlayers && r.game == game && r.createdAt == now
                && r.state == Waiting && r.startedAt == None
                && |r.players| == 1 && r.players[0].id == ownerId && r.fillers == []
                && lobbies == old(lobbies)[ownerId := r]
                && order == old(order) + [ownerId]
                && idCounter == old(idCounter) + 1
                && (forall o :: o in old(lobbies) ==> old(lobbies)[o].id < r.id)
    {
      if ownerId in lobbies {
        return null;
      }
      r := new Lobby(idCounter, ownerId, time, maxPlayers, game, now);
      lobbies := lobbies[ownerId := r];
      order := order + [ownerId];
      idCounter := idCounter + 1;
    }

    /** `get_lobby_by_id`: the registered lobby with that id, or none when no lobby has it. */
    method GetLobbyById(lobbyId: int) returns (r: Lobby?)
      requires Valid()
      ensures r != null ==> r.id == lobbyId && r.owner in lobbies && lobbies[r.owner] == r
      ensures r == null ==> forall o :: o in lobbies ==> lobbies[o].id != lobbyId
    {
      for i := 0 to |order|
        invariant forall k :: 0 <= k < i ==> lobbies[order[k]].id != lobbyId
      {
        var lobby := lobbies[order[i]];
        if lobby.id == lobbyId {
          assert order[i] in lobbies && lobby.owner == order[i];
          return lobby;
        }
      }
      return null;
    }

    /**
     * `get_all_lobbies`: every registered lobby that is not completed, each
     * once, in creation order (increasing ids).
     */
    method GetAllLobbies() returns (r: seq<Lobby>)
      requires Valid()
      ensures forall o :: o in lobbies && lobbies[o].state != Completed ==> lobbies[o] in r
      ensures forall i :: 0 <= i < |r| ==> r[i].state != Completed && r[i].owner in lobbies && lobbies[r[i].owner] == r[i]
      ensures forall i, j :: 0 <= i < j < |r| ==> r[i].id < r[j].id
    {
      r := [];
      ghost var bound := 0;
      if |order| > 0 {
        ghost var o := order[0];
        assert o in lobbies && lobbies[o].owner == o && 0 <= lobbies[o].id;
      }
      for k := 0 to |order|
        invariant forall m :: 0 <= m < k && lobbies[order[m]].state != Completed ==> lobbies[order[m]] in r
        invariant forall i :: 0 <= i < |r| ==> r[i].state != Completed && r[i].owner in lobbies && lobbies[r[i].owner] == r[i]
        invariant forall i :: 0 <= i < |r| ==> r[i].id < bound
        invariant k < |order| ==> bound <= lobbies[order[k]].id
        invariant forall i, j :: 0 <= i < j < |r| ==> r[i].id < r[j].id
      {
        var lobby := lobbies[order[k]];
        assert order[k] in lobbies && lobby.owner == order[k];
        if lobby.state != Completed {
          r := r + [lobby];
        }
        bound := lobby.id + 1;
        if k + 1 < |order| {
          assert lobby.id < lobbies[order[k + 1]].id;
        }
      }
    }

    /** `get_lobby_by_owner`: the owner's lobby, or none. */
    function GetLobbyByOwner(ownerId: int): (r: Lobby?)
      reads this
      ensures r != null <==> ownerId in lobbies
      ensures Valid() && r != null ==> r.owner == ownerId
    {
      if ownerId in lobbies then lobbies[ownerId] else null
    }

    /**
     * `close_lobby`: ends the owner's lobby and forgets it, reporting whether
     * there was one. Ending an already completed lobby raises, and the
     * mapping is then kept.
     */
    method CloseLobby(ownerId: int) returns (r: Result<bool, TransitionError>)
      requires Valid()
      modifies this, (if ownerId in lobbies then {lobbies[ownerId]} else {})`state
      ensures Valid()
      ensures idCounter == old(idCounter)
      ensures ownerId !in old(lobbies) ==>
                r == Ok(false) && lobbies == old(lobbies) && order == old(order)
      ensures ownerId in old(lobbies) ==>
                && old(lobbies)[ownerId].state == Completed
                && (old(lobbies[ownerId].state) != Completed ==>
                      && r == Ok(true)
                      && lobbies == old(lobbies) - {ownerId}
                      && order == Erase(old(order), ownerId))
                && (old(lobbies[ownerId].state) == Completed ==>
                      && r == Err(InvalidTransition(Completed, Completed))
                      && lobbies == old(lobbies) && order == old(order))
    {
      if ownerId !in lobbies {
        return Ok(false);
      }
      var ended := lobbies[ownerId].End();
      if ended.Err? {
        return Err(ended.error);
      }
      RemovalKeepsRegistry(lobbies, order, idCounter, ownerId);
      lobbies := lobbies - {ownerId};
      order := Erase(order, ownerId);
      return Ok(true);
    }
  }
}
