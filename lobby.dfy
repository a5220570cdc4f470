/**
 * The current lobby: an owner, a capacity, an ordered player list, an ordered
 * filler (backup) list and a lifecycle state that only moves along the
 * transition table. Roster operations report their outcome as result enums;
 * an illegal state change is the error `transition` raises.
 */
module LobbyModel {
  import opened Common
  import opened LobbyEnums
  import opened LobbyPlayer

  /** `any(p.id == pid for p in ps)` */
  predicate Contains(ps: seq<Player>, pid: int) {
    exists i :: 0 <= i < |ps| && ps[i].id == pid
  }

  /** No id occurs twice in the list. */
  predicate UniqueIds(ps: seq<Player>) {
    forall i, j :: 0 <= i < j < |ps| ==> ps[i].id != ps[j].id
  }

  /** No id occurs in both lists. */
  predicate Disjoint(a: seq<Player>, b: seq<Player>) {
    forall i, j :: 0 <= i < |a| && 0 <= j < |b| ==> a[i].id != b[j].id
  }

  /**
   * The most players a lobby can hold: its size, except that a lobby created
   * with a size below one still holds its owner.
   */
  function Capacity(maxPlayers: int): nat {
    if maxPlayers < 1 then 1 else maxPlayers
  }

  /** `[p for p in ps if p.id != pid]`: drops every entry with that id. */
  function Without(ps: seq<Player>, pid: int): (r: seq<Player>)
    ensures |r| <= |ps|
    ensures !Contains(r, pid)
    ensures !Contains(ps, pid) ==> r == ps
    ensures Contains(ps, pid) ==> |r| < |ps|
  {
    if ps == [] then []
    else if ps[0].id == pid then Without(ps[1..], pid)
    else [ps[0]] + Without(ps[1..], pid)
  }

  /** `Without` keeps exactly the entries with another id: everything it returns comes from the list, and nothing else is lost. */
  lemma {:induction false} WithoutKeepsOthers(ps: seq<Player>, pid: int)
    ensures forall i :: 0 <= i < |Without(ps, pid)| ==> Without(ps, pid)[i] in ps
    ensures forall j :: 0 <= j < |ps| && ps[j].id != pid ==> ps[j] in Without(ps, pid)
  {
    if ps != [] {
      WithoutKeepsOthers(ps[1..], pid);
      forall j | 1 <= j < |ps| ensures ps[j] == ps[1..][j - 1] {
      }
    }
  }

  /**
   * On a list without repeated ids, `Without` deletes exactly the one entry
   * with that id and keeps the others in their order.
   */
  lemma {:induction false} WithoutDeletesOne(ps: seq<Player>, pid: int, k: nat)
    requires UniqueIds(ps)
    requires k < |ps| && ps[k].id == pid
    ensures Without(ps, pid) == ps[..k] + ps[k + 1..]
  {
    var tail := ps[1..];
    TailOfUnique(ps);
    if k == 0 {
      assert Without(ps, pid) == Without(tail, pid) == tail;
    } else {
      WithoutDeletesOne(tail, pid, k - 1);
      assert Without(ps, pid) == [ps[0]] + Without(tail, pid) by {
        assert ps[0].id != ps[k].id;
      }
      assert [ps[0]] + (tail[..k - 1] + tail[k..]) == ps[..k] + ps[k + 1..] by {
        assert tail[..k - 1] == ps[1..k] && tail[k..] == ps[k + 1..];
        assert [ps[0]] + ps[1..k] == ps[..k];
      }
    }
  }

  /** Dropping the head of a list without repeated ids leaves one without repeats and without the head's id. */
  lemma TailOfUnique(ps: seq<Player>)
    requires UniqueIds(ps) && ps != []
    ensures UniqueIds(ps[1..]) && !Contains(ps[1..], ps[0].id)
  {
    forall i | 0 <= i < |ps[1..]| ensures ps[1..][i] == ps[i + 1] {
    }
  }

  /** A list filtered by `Without` keeps unique ids and stays disjoint from anything the original was. */
  lemma WithoutPreservesInvariants(ps: seq<Player>, other: seq<Player>, pid: int)
    ensures UniqueIds(ps) ==> UniqueIds(Without(ps, pid))
    ensures Disjoint(ps, other) ==> Disjoint(Without(ps, pid), other)
    ensures Disjoint(other, ps) ==> Disjoint(other, Without(ps, pid))
  {
    if UniqueIds(ps) {
      WithoutKeepsUnique(ps, pid);
    }
    WithoutKeepsApart(ps, other, pid);
  }

  /** Filtering a list without repeated ids leaves one without repeated ids. */
  lemma {:induction false} WithoutKeepsUnique(ps: seq<Player>, pid: int)
    requires UniqueIds(ps)
    ensures UniqueIds(Without(ps, pid))
  {
    if ps != [] {
      var tail := ps[1..];
      TailOfUnique(ps);
      WithoutKeepsUnique(tail, pid);
      if ps[0].id != pid {
        var w := Without(tail, pid);
        WithoutKeepsOthers(tail, pid);
        forall j | 0 <= j < |w| ensures w[j].id != ps[0].id {
          var m :| 0 <= m < |tail| && tail[m] == w[j];
        }
        var r := [ps[0]] + w;
        forall i, j | 0 <= i < j < |r| ensures r[i].id != r[j].id {
          assert r[j] == w[j - 1];
          if i > 0 {
            assert r[i] == w[i - 1];
          }
        }
      }
    }
  }

  /** Every id of a filtered list is an id of the original, so the filtered list is as far from `other` as it was. */
  lemma WithoutKeepsApart(ps: seq<Player>, other: seq<Player>, pid: int)
    ensures Disjoint(ps, other) ==> Disjoint(Without(ps, pid), other)
    ensures Disjoint(other, ps) ==> Disjoint(other, Without(ps, pid))
  {
    var r := Without(ps, pid);
    WithoutKeepsOthers(ps, pid);
    forall i | 0 <= i < |r| ensures exists m :: 0 <= m < |ps| && ps[m].id == r[i].id {
      var m :| 0 <= m < |ps| && ps[m] == r[i];
    }
  }

  /**
   * `_get_final_players` on list values: the players, followed by the
   * earliest fillers needed to reach `maxPlayers` (as many as there are).
   */
  function FinalRoster<T>(players: seq<T>, fillers: seq<T>, maxPlayers: int): (r: seq<T>)
    ensures |r| == if |players| >= maxPlayers then |players| else Min(maxPlayers, |players| + |fillers|)
    ensures r[..|players|] == players
    ensures r[|players|..] == fillers[..|r| - |players|]
  {
    var needed := maxPlayers - |players|;
    if needed > 0 then players + fillers[..Min(needed, |fillers|)] else players
  }

  /**
   * Without force, `start` succeeds exactly when the roster reaches the size:
   * the players already fill it, or the fillers can top them up to it.
   */
  lemma RosterFullExactly<T>(players: seq<T>, fillers: seq<T>, maxPlayers: int)
    ensures |FinalRoster(players, fillers, maxPlayers)| == maxPlayers <==>
              |players| == maxPlayers || (|players| < maxPlayers <= |players| + |fillers|)
  {
  }

  /** What `start` returns when it does not raise: success, and the roster it computed. */
  datatype StartReply = StartReply(success: bool, roster: seq<Player>)

  class Lobby {
    const id: int
    const owner: int
    var time: int
    const maxPlayers: int
    const game: string
    const createdAt: int
    var startedAt: Option<int>
    var state: LobbyState
    var players: seq<Player>
    var fillers: seq<Player>

    /** Roster invariant: ids unique in each list, no id in both, players within capacity. */
    ghost predicate Valid()
      reads this`players, this`fillers
    {
      && UniqueIds(players)
      && UniqueIds(fillers)
      && Disjoint(players, fillers)
      && |players| <= Capacity(maxPlayers)
    }

    /** A new lobby waits, with its owner as the only player. */
    constructor (id: int, owner: int, time: int, maxPlayers: int, game: string, createdAt: int)
      ensures Valid()
      ensures this.id == id && this.owner == owner && this.time == time
      ensures this.maxPlayers == maxPlayers && this.game == game && this.createdAt == createdAt
      ensures state == Waiting && startedAt == None
      ensures |players| == 1 && fresh(players[0])
      ensures players[0].id == owner && !players[0].forceAdded && !players[0].ready
      ensures fillers == []
    {
      var first := Player.NewPlayer(owner);
      this.id := id;
      this.owner := owner;
      this.time := time;
      this.maxPlayers := maxPlayers;
      this.game := game;
      this.createdAt := createdAt;
      startedAt := None;
      state := Waiting;
      players := [first];
      fillers := [];
    }

    /** `is_active`: the one state whose only way out is completion. */
    predicate IsActive()
      reads this`state
      ensures IsActive() <==> Successors(state) == {Completed}
    {
      state == Active
    }

    /** `is_completed`: the one state with no way out. */
    predicate IsCompleted()
      reads this`state
      ensures IsCompleted() <==> Successors(state) == {}
    {
      state == Completed
    }

    /**
     * `can_transition`: the target is listed for the current state. No state
     * moves to itself, a completed lobby moves nowhere, and any other lobby
     * can still be ended.
     */
    predicate CanTransitionTo(newState: LobbyState)
      reads this`state
      ensures CanTransitionTo(newState) ==> newState != state && !IsCompleted()
      ensures !IsCompleted() ==> CanTransition(state, Completed)
    {
      CanTransition(state, newState)
    }

    /** `transition`: moves to a listed successor, or raises and leaves the state alone. */
    method Transition(newState: LobbyState) returns (r: Result<LobbyState, TransitionError>)
      modifies this`state
      ensures CanTransition(old(state), newState) ==> state == newState && r == Ok(newState)
      ensures !CanTransition(old(state), newState) ==>
                state == old(state) && r == Err(InvalidTransition(old(state), newState))
    {
      if !CanTransitionTo(newState) {
        return Err(InvalidTransition(state, newState));
      }
      state := newState;
      return Ok(state);
    }

    /** `is_full`: under the invariant, the player list is at capacity. */
    function IsFull(): (r: bool)
      reads this`players
      ensures Valid() && maxPlayers >= 1 ==> (r <==> |players| == maxPlayers)
    {
      |players| >= maxPlayers
    }

    /** `playing_in_lobby`: the id is on the player list, and then, under the invariant, not a filler. */
    predicate PlayingInLobby(pid: int)
      reads this`players, this`fillers
      ensures Valid() && PlayingInLobby(pid) ==> !Contains(fillers, pid)
    {
      Contains(players, pid)
    }

    /** `in_lobby`: the id is among the participants, on exactly one list under the invariant. */
    predicate InLobby(pid: int)
      reads this`players, this`fillers
      ensures InLobby(pid) <==> Contains(GetParticipants(), pid)
      ensures Valid() ==> (InLobby(pid) <==> PlayingInLobby(pid) != Contains(fillers, pid))
    {
      PlayingInLobby(pid) || Contains(fillers, pid)
    }

    /** `get_participants`: the players, then the fillers; no id is listed twice under the invariant. */
    function GetParticipants(): (r: seq<Player>)
      reads this`players, this`fillers
      ensures |r| == |players| + |fillers|
      ensures r[..|players|] == players && r[|players|..] == fillers
      ensures Valid() ==> UniqueIds(r)
    {
      players + fillers
    }

    method EditTime(newTime: int)
      modifies this`time
      ensures time == newTime
    {
      time := newTime;
    }

    /**
     * `add_player`: joins as a player while there is room, leaving the filler
     * list if the user was on it.
     */
    method AddPlayer(pid: int, forced: bool) returns (r: LobbyAddResult)
      requires Valid()
      modifies this`players, this`fillers
      ensures Valid()
      ensures state == Completed ==> r == LobbyAddResult.LobbyCompleted
      ensures state != Completed && Contains(old(players), pid) ==> r == AlreadyInLobby
      ensures state != Completed && !Contains(old(players), pid) ==>
                r == (if |old(players)| < maxPlayers then Success else LobbyFull)
      ensures r != Success ==> players == old(players) && fillers == old(fillers)
      ensures r == Success ==>
                && fillers == Without(old(fillers), pid)
                && |players| == |old(players)| + 1
                && players[..|old(players)|] == old(players)
                && fresh(players[|old(players)|])
                && players[|old(players)|].id == pid
                && players[|old(players)|].forceAdded == forced
                && !players[|old(players)|].ready
    {
      if state == Completed {
        return LobbyAddResult.LobbyCompleted;
      }
      if PlayingInLobby(pid) {
        return AlreadyInLobby;
      } else if |players| < maxPlayers {
        WithoutPreservesInvariants(fillers, players, pid);
        fillers := Without(fillers, pid);
        var p := new Player(pid, forced);
        players := players + [p];
        return Success;
      } else {
        return LobbyFull;
      }
    }

    /**
     * `add_filler`: joins the filler list (which has no cap), leaving the
     * player list if the user was on it.
     */
    method AddFiller(pid: int, forced: bool) returns (r: LobbyAddResult)
      requires Valid()
      modifies this`players, this`fillers
      ensures Valid()
      ensures state == Completed ==> r == LobbyAddResult.LobbyCompleted
      ensures state != Completed && Contains(old(fillers), pid) ==> r == AlreadyInLobby
      ensures state != Completed && !Contains(old(fillers), pid) ==> r == Success
      ensures r != Success ==> players == old(players) && fillers == old(fillers)
      ensures r == Success ==>
                && players == Without(old(players), pid)
                && |fillers| == |old(fillers)| + 1
                && fillers[..|old(fillers)|] == old(fillers)
                && fresh(fillers[|old(fillers)|])
                && fillers[|old(fillers)|].id == pid
                && fillers[|old(fillers)|].forceAdded == forced
                && !fillers[|old(fillers)|].ready
    {
      if state == Completed {
        return LobbyAddResult.LobbyCompleted;
      }
      if Contains(fillers, pid) {
        return AlreadyInLobby;
      } else if PlayingInLobby(pid) {
        WithoutPreservesInvariants(players, fillers, pid);
        players := Without(players, pid);
        var f := new Player(pid, forced);
        fillers := fillers + [f];
        return Success;
      } else {
        var f := new Player(pid, forced);
        fillers := fillers + [f];
        return Success;
      }
    }

    /**
     * `remove_participant`: leaves whichever list holds the user; when both
     * lists end up empty the result is `LobbyEmpty` instead.
     */
    method RemoveParticipant(pid: int) returns (r: LobbyRemoveResult)
      requires Valid()
      modifies this`players, this`fillers
      ensures Valid()
      ensures state == Completed ==>
                r == LobbyRemoveResult.LobbyCompleted && players == old(players) && fillers == old(fillers)
      ensures state != Completed && Contains(old(players), pid) ==>
                players == Without(old(players), pid) && fillers == old(fillers)
                && r == (if players == [] && fillers == [] then LobbyEmpty else SuccessPlayer)
      ensures state != Completed && !Contains(old(players), pid) && Contains(old(fillers), pid) ==>
                fillers == Without(old(fillers), pid) && players == old(players)
                && r == (if players == [] && fillers == [] then LobbyEmpty else SuccessFiller)
      ensures state != Completed && !Contains(old(players), pid) && !Contains(old(fillers), pid) ==>
                r == NotInLobby && players == old(players) && fillers == old(fillers)
    {
      if state == Completed {
        return LobbyRemoveResult.LobbyCompleted;
      }
      if PlayingInLobby(pid) {
        WithoutPreservesInvariants(players, fillers, pid);
        players := Without(players, pid);
        r := SuccessPlayer;
      } else if Contains(fillers, pid) {
        WithoutPreservesInvariants(fillers, players, pid);
        fillers := Without(fillers, pid);
        r := SuccessFiller;
      } else {
        return NotInLobby;
      }
      if players == [] && fillers == [] {
        r := LobbyEmpty;
      }
    }

    /**
     * `_get_final_players`: computed from the lists, which it leaves alone.
     * The players come first, each one a participant, and under the
     * invariant no id is listed twice.
     */
    function GetFinalPlayers(): (r: seq<Player>)
      reads this`players, this`fillers
      ensures |players| <= |r| && r[..|players|] == players
      ensures forall i :: 0 <= i < |r| ==> r[i] in GetParticipants()
      ensures Valid() ==> UniqueIds(r)
    {
      var roster := FinalRoster(players, fillers, maxPlayers);
      assert Valid() ==> UniqueIds(roster) by {
        var needed := maxPlayers - |players|;
        if Valid() && needed > 0 && fillers != [] {
          PromotionPreservesInvariants(players, fillers, Min(needed, |fillers|), maxPlayers);
        }
      }
      roster
    }

    /**
     * `start`: from WAITING or PENDING, goes ACTIVE when the final roster is
     * full or the start is forced, promoting the fillers it uses in order;
     * otherwise goes PENDING, which raises when already PENDING.
     */
    method Start(force: bool, now: int) returns (r: Result<StartReply, TransitionError>)
      requires Valid()
      modifies this`state, this`players, this`fillers, this`startedAt
      ensures Valid()
      ensures old(state) != Waiting && old(state) != Pending ==>
                && r == Ok(StartReply(false, []))
                && state == old(state) && players == old(players) && fillers == old(fillers)
                && startedAt == old(startedAt)
      ensures old(state) in {Waiting, Pending} ==>
                var roster := FinalRoster(old(players), old(fillers), maxPlayers);
                if |roster| == maxPlayers || force then
                  && r == Ok(StartReply(true, roster))
                  && state == Active
                  && players == roster
                  && fillers == old(fillers)[|roster| - |old(players)|..]
                  && startedAt == Some(now)
                else
                  && players == old(players) && fillers == old(fillers)
                  && startedAt == old(startedAt)
                  && (old(state) == Waiting ==> state == Pending && r == Ok(StartReply(false, roster)))
                  && (old(state) == Pending ==>
                        state == Pending && r == Err(InvalidTransition(Pending, Pending)))
    {
      if state != Waiting && state != Pending {
        return Ok(StartReply(false, []));
      }
      var finalPlayers := GetFinalPlayers();
      if |finalPlayers| == maxPlayers || force {
        var moved := Transition(Active);
        var needed := |finalPlayers| - |players|;
        if needed > 0 {
          PromotionPreservesInvariants(players, fillers, needed, maxPlayers);
          var fillersUsed := fillers[..needed];
          players := players + fillersUsed;
          fillers := fillers[needed..];
        }
        startedAt := Some(now);
        return Ok(StartReply(true, finalPlayers));
      }
      var parked := Transition(Pending);
      if parked.Err? {
        return Err(parked.error);
      }
      return Ok(StartReply(false, finalPlayers));
    }

    /** `end`: the transition to COMPLETED, which raises when already COMPLETED. */
    method End() returns (r: Result<(), TransitionError>)
      modifies this`state
      ensures state == Completed
      ensures old(state) != Completed ==> r == Ok(())
      ensures old(state) == Completed ==> r == Err(InvalidTransition(Completed, Completed))
    {
      var moved := Transition(Completed);
      if moved.Err? {
        return Err(moved.error);
      }
      return Ok(());
    }

    /** `reset_pending`: PENDING goes back to WAITING; any other state is kept. */
    method ResetPending()
      modifies this`state
      ensures old(state) == Pending ==> state == Waiting
      ensures old(state) != Pending ==> state == old(state)
    {
      if state == Pending {
        var back := Transition(Waiting);
      }
    }
  }

  /** Moving the first `needed` fillers to the end of the players keeps the roster invariant. */
  lemma PromotionPreservesInvariants(players: seq<Player>, fillers: seq<Player>, needed: nat, maxPlayers: int)
    requires UniqueIds(players) && UniqueIds(fillers) && Disjoint(players, fillers)
    requires 0 < needed <= |fillers| && |players| + needed <= maxPlayers
    ensures UniqueIds(players + fillers[..needed])
    ensures UniqueIds(fillers[needed..])
    ensures Disjoint(players + fillers[..needed], fillers[needed..])
    ensures |players + fillers[..needed]| <= Capacity(maxPlayers)
  {
    var promoted := players + fillers[..needed];
    forall i, j | 0 <= i < j < |promoted| ensures promoted[i].id != promoted[j].id {
      if j >= |players| {
        assert promoted[j] == fillers[j - |players|];
        if i >= |players| {
          assert promoted[i] == fillers[i - |players|];
        }
      }
    }
    forall i, j | 0 <= i < j < |fillers[needed..]|
      ensures fillers[needed..][i].id != fillers[needed..][j].id
    {
      assert fillers[needed..][i] == fillers[needed + i];
      assert fillers[needed..][j] == fillers[needed + j];
    }
    forall i, j | 0 <= i < |promoted| && 0 <= j < |fillers[needed..]|
      ensures promoted[i].id != fillers[needed..][j].id
    {
      assert fillers[needed..][j] == fillers[needed + j];
      if i >= |players| {
        assert promoted[i] == fillers[i - |players|];
      }
    }
  }
}
