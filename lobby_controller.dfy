/**
 * The decisions the lobby controller takes before it calls into the model:
 * which requests create a lobby, how long a lobby may live before it is closed
 * automatically, when a start request reaches `Lobby.start`, when a removal
 * closes the lobby, and when players leaving voice close an active lobby.
 * Message sending, views and timers are not part of this model; each decision
 * is taken on the values those would have supplied.
 */
module LobbyControl {
  import opened Common
  import opened LobbyEnums
  import opened LobbyPlayer
  import opened LobbyModel
  import opened LobbyManagement

  /** Seconds a waiting ASAP lobby, and a lobby once started, lives before it is closed automatically. */
  const SixHours: int := 21600
  /** Seconds past its listed time that a waiting scheduled lobby lives. */
  const ThreeHours: int := 10800

  /**
   * The auto-close window of a waiting lobby, counted from `now`: six hours
   * for an ASAP lobby, otherwise until three hours past its listed time.
   */
  function WaitingWindow(time: int, asap: int, now: int): (t: int)
    ensures time == asap ==> now + t == now + SixHours
    ensures time != asap ==> now + t == time + ThreeHours
  {
    if time == asap then SixHours else time - now + ThreeHours
  }

  /**
   * The guard of `_auto_close_lobby`: a timer only acts when the lobby is
   * still in the state it was armed in, and that state is not COMPLETED.
   * That is exactly when the lobby is where the timer left it and can still
   * be ended.
   */
  predicate AutoCloseFires(armedIn: LobbyState, current: LobbyState)
    ensures AutoCloseFires(armedIn, current) <==> armedIn == current && CanTransition(current, Completed)
  {
    armedIn == current && current != Completed
  }

  /**
   * A timer is stale once the lobby has reached a later phase than the one
   * it was armed in (a waiting timer once the lobby went active, an active
   * one once it completed), whatever happens afterwards. A lobby that goes
   * from WAITING to PENDING and back is in its armed state again, and the
   * waiting timer then still fires.
   */
  lemma StaleTimerIsInert(states: seq<LobbyState>, k: nat)
    requires IsPath(states) && k < |states|
    requires Phase(states[k]) > Phase(states[0])
    ensures !AutoCloseFires(states[0], states[|states| - 1])
  {
    PhaseNeverDecreases(states, k, |states| - 1);
  }

  /** A participant's voice channel: none when they have no voice state or are not connected. */
  type VoiceChannel = Option<int>

  /** How many participants sit in channel `ch`. */
  function InChannel(channels: seq<VoiceChannel>, ch: int): nat {
    if channels == [] then 0
    else InChannel(channels[..|channels| - 1], ch) + (if channels[|channels| - 1] == Some(ch) then 1 else 0)
  }

  /** One more participant adds one to the count of their own channel and nothing to the others. */
  lemma InChannelStep(channels: seq<VoiceChannel>, t: nat, ch: int)
    requires t < |channels|
    ensures InChannel(channels[..t + 1], ch) == InChannel(channels[..t], ch) + (if channels[t] == Some(ch) then 1 else 0)
  {
    assert channels[..t + 1][..t] == channels[..t];
  }

  /** A channel somebody sits in has a positive count. */
  lemma {:induction false} InChannelPositive(channels: seq<VoiceChannel>, ch: int)
    requires Some(ch) in channels
    ensures InChannel(channels, ch) >= 1
  {
    var last := channels[|channels| - 1];
    if last != Some(ch) {
      assert Some(ch) in channels[..|channels| - 1] by {
        var i :| 0 <= i < |channels| && channels[i] == Some(ch);
        assert i < |channels| - 1 && channels[..|channels| - 1][i] == channels[i];
      }
      InChannelPositive(channels[..|channels| - 1], ch);
    }
  }

  /** No channel holds more than all the participants. */
  lemma {:induction false} InChannelAtMostAll(channels: seq<VoiceChannel>, ch: int)
    ensures InChannel(channels, ch) <= |channels|
  {
    if channels != [] {
      InChannelAtMostAll(channels[..|channels| - 1], ch);
    }
  }

  /**
   * The threshold of the voice check: with more than three players a channel
   * must hold at least half of them (`count >= 0.5 * n`, kept in integers);
   * with three or fewer, one participant is enough.
   */
  predicate MeetsThreshold(count: nat, numPlayers: nat)
    ensures MeetsThreshold(count, numPlayers) <==>
              count as real >= (if numPlayers > 3 then numPlayers as real * 0.5 else 1.0)
    ensures MeetsThreshold(count, numPlayers) ==> count >= 1
  {
    if numPlayers > 3 then 2 * count >= numPlayers else count >= 1
  }

  /** Some channel that a participant sits in meets the threshold: the lobby stays open. */
  ghost predicate Quorum(channels: seq<VoiceChannel>, numPlayers: nat)
    ensures Quorum(channels, numPlayers) ==> exists ch :: Some(ch) in channels && InChannel(channels, ch) >= 1
  {
    exists ch :: Some(ch) in channels && MeetsThreshold(InChannel(channels, ch), numPlayers)
  }

  /** With three or fewer players, a lobby stays open exactly while anybody is still in voice. */
  lemma SmallLobbyQuorum(channels: seq<VoiceChannel>, numPlayers: nat)
    requires numPlayers <= 3
    ensures Quorum(channels, numPlayers) <==> exists ch :: Some(ch) in channels
  {
    if ch :| Some(ch) in channels {
      InChannelPositive(channels, ch);
    }
  }

  /** With more than three players, fewer than half of them in voice at all closes the lobby. */
  lemma TooFewInVoice(channels: seq<VoiceChannel>, numPlayers: nat)
    requires numPlayers > 3 && 2 * |channels| < numPlayers
    ensures !Quorum(channels, numPlayers)
  {
    forall ch ensures InChannel(channels, ch) <= |channels| {
      InChannelAtMostAll(channels, ch);
    }
  }

  /** `keys` lists, once each, the channels among the first `t` entries, and `counts` holds how many sit in each. */
  ghost predicate TallyUpTo(channels: seq<VoiceChannel>, t: nat, keys: seq<int>, counts: map<int, nat>)
    requires t <= |channels|
  {
    && Distinct(keys)
    && (forall ch :: ch in counts <==> ch in keys)
    && (forall ch :: ch in keys <==> Some(ch) in channels[..t])
    && (forall ch :: ch in counts ==> counts[ch] == InChannel(channels[..t], ch))
  }

  /** Counting one more entry, into an existing or a new channel or not at all, tallies one more entry. */
  lemma TallyStep(channels: seq<VoiceChannel>, t: nat, keys: seq<int>, counts: map<int, nat>)
    requires t < |channels| && TallyUpTo(channels, t, keys, counts)
    ensures channels[t] == None ==> TallyUpTo(channels, t + 1, keys, counts)
    ensures channels[t].Some? && channels[t].value in counts ==>
              var ch := channels[t].value;
              TallyUpTo(channels, t + 1, keys, counts[ch := counts[ch] + 1])
    ensures channels[t].Some? && channels[t].value !in counts ==>
              var ch := channels[t].value;
              TallyUpTo(channels, t + 1, keys + [ch], counts[ch := 1])
  {
    assert channels[..t + 1] == channels[..t] + [channels[t]];
    var keys', counts' := keys, counts;
    if channels[t].Some? {
      var ch := channels[t].value;
      if ch in counts {
        counts' := counts[ch := counts[ch] + 1];
      } else {
        counts' := counts[ch := 1];
        keys' := keys + [ch];
        InChannelZero(channels[..t], ch);
      }
    }
    forall q | q in counts' ensures counts'[q] == InChannel(channels[..t + 1], q) {
      InChannelStep(channels, t, q);
    }
    assert TallyUpTo(channels, t + 1, keys', counts');
  }

  /** A tally of every entry lists exactly the occupied channels, each with its full count. */
  lemma TallyDone(channels: seq<VoiceChannel>, keys: seq<int>, counts: map<int, nat>)
    requires TallyUpTo(channels, |channels|, keys, counts)
    ensures forall m :: 0 <= m < |keys| ==> keys[m] in counts && Some(keys[m]) in channels
    ensures forall ch :: Some(ch) in channels ==> ch in keys
    ensures forall ch :: ch in counts ==> counts[ch] == InChannel(channels, ch)
  {
    var all := channels[..|channels|];
    assert all == channels;
    forall m | 0 <= m < |keys| ensures keys[m] in counts && Some(keys[m]) in channels {
      var ch := keys[m];
      assert ch in keys;
      assert ch in counts && Some(ch) in all;
    }
    forall ch | Some(ch) in channels ensures ch in keys {
      assert Some(ch) in all;
    }
    forall ch | ch in counts ensures counts[ch] == InChannel(channels, ch) {
      assert counts[ch] == InChannel(all, ch);
    }
  }

  /**
   * The tally of `handle_voice_state_update`: counts the participants per
   * channel, skipping those not in voice, then reports whether any channel's
   * count meets the threshold for the current number of players.
   */
  method StillActive(channels: seq<VoiceChannel>, numPlayers: nat) returns (stillActive: bool)
    ensures stillActive <==> Quorum(channels, numPlayers)
  {
    var keys: seq<int> := [];
    var counts: map<int, nat> := map[];
    for t := 0 to |channels|
      invariant TallyUpTo(channels, t, keys, counts)
    {
      TallyStep(channels, t, keys, counts);
      if channels[t].Some? {
        var ch := channels[t].value;
        if ch in counts {
          counts := counts[ch := counts[ch] + 1];
        } else {
          counts := counts[ch := 1];
          keys := keys + [ch];
        }
      }
    }
    TallyDone(channels, keys, counts);
    stillActive := false;
    for k := 0 to |keys|
      invariant forall m :: 0 <= m < |keys| ==> keys[m] in counts
      invariant stillActive <==> exists m :: 0 <= m < k && MeetsThreshold(counts[keys[m]], numPlayers)
    {
      if MeetsThreshold(counts[keys[k]], numPlayers) {
        stillActive := true;
      }
    }
    if stillActive {
      var m :| 0 <= m < |keys| && MeetsThreshold(counts[keys[m]], numPlayers);
      var ch := keys[m];
      assert Some(ch) in channels && counts[ch] == InChannel(channels, ch);
    } else {
      forall ch | Some(ch) in channels ensures !MeetsThreshold(InChannel(channels, ch), numPlayers) {
        assert ch in keys;
        var m :| 0 <= m < |keys| && keys[m] == ch;
        assert counts[ch] == InChannel(channels, ch);
      }
    }
  }

  /** A channel nobody sits in has count zero. */
  lemma {:induction false} InChannelZero(channels: seq<VoiceChannel>, ch: int)
    requires Some(ch) !in channels
    ensures InChannel(channels, ch) == 0
  {
    if channels != [] {
      assert Some(ch) !in channels[..|channels| - 1];
      InChannelZero(channels[..|channels| - 1], ch);
    }
  }

  /** Why `create_lobby` refused, or the lobby it created with the auto-close window it armed. */
  datatype CreateOutcome =
    | SizeTooSmall
    | NoTimezone
    | AlreadyOwnsLobby
    | TimeNotParsed
    | Created(lobby: Lobby, timeout: int)

  /** Why `_close_lobby_internal` did not finish. */
  datatype CloseError =
    | NoLobby                        // `get_lobby_by_owner(...).id` on a missing lobby raises
    | Raised(error: TransitionError) // `close_lobby` ended an already completed lobby

  /** What `handle_start_lobby` did. */
  datatype StartOutcome =
    | AlreadyCompleted
    | NotPlaying
    | AlreadyStarting
    | Started(roster: seq<Player>, timeout: int)
    | OfferForceStart(roster: seq<Player>)
    | StartRaised(error: TransitionError)

  class LobbyController {
    const manager: LobbyManager

    ghost predicate Valid()
      reads this, manager
    {
      manager.Valid()
    }

    constructor ()
      ensures Valid() && fresh(manager)
      ensures manager.lobbies == map[] && manager.idCounter == 0
    {
      manager := new LobbyManager();
    }

    /**
     * `create_lobby`: refuses a size below one, an owner without a timezone,
     * an owner who already has a lobby and a time that did not parse (a falsy
     * result, so also 0), in that order and before anything is created;
     * otherwise registers the lobby and arms its waiting auto-close window.
     */
    method CreateLobby(ownerId: int, timezone: string, parsedTime: Option<int>, lobbySize: int,
                       game: string, asap: int, now: int) returns (r: CreateOutcome)
      requires Valid()
      modifies manager
      ensures Valid()
      ensures lobbySize < 1 ==> r == SizeTooSmall
      ensures lobbySize >= 1 && timezone == "" ==> r == NoTimezone
      ensures lobbySize >= 1 && timezone != "" && ownerId in old(manager.lobbies) ==> r == AlreadyOwnsLobby
      ensures (lobbySize >= 1 && timezone != "" && ownerId !in old(manager.lobbies)
               && (parsedTime == None || parsedTime == Some(0))) ==> r == TimeNotParsed
      ensures (lobbySize >= 1 && timezone != "" && ownerId !in old(manager.lobbies)
               && parsedTime.Some? && parsedTime.value != 0) ==> r.Created?
      ensures !r.Created? ==>
                manager.lobbies == old(manager.lobbies) && manager.order == old(manager.order)
                && manager.idCounter == old(manager.idCounter)
      ensures r.Created? ==>
                && lobbySize >= 1 && timezone != "" && ownerId !in old(manager.lobbies)
                && parsedTime.Some? && parsedTime.value != 0
                && fresh(r.lobby) && r.lobby.Valid() && r.lobby.state == Waiting
                && r.lobby.owner == ownerId && r.lobby.maxPlayers == lobbySize
                && r.lobby.time == parsedTime.value && r.lobby.game == game
                && r.lobby.createdAt == now && r.lobby.startedAt == None
                && |r.lobby.players| == 1 && r.lobby.players[0].id == ownerId && r.lobby.fillers == []
                && r.lobby.id == old(manager.idCounter)
                && manager.lobbies == old(manager.lobbies)[ownerId := r.lobby]
                && manager.order == old(manager.order) + [ownerId]
                && manager.idCounter == old(manager.idCounter) + 1
                && r.timeout == WaitingWindow(parsedTime.value, asap, now)
    {
      if lobbySize < 1 {
        return SizeTooSmall;
      }
      if timezone == "" {
        return NoTimezone;
      }
      if manager.GetLobbyByOwner(ownerId) != null {
        return AlreadyOwnsLobby;
      }
      if parsedTime == None || parsedTime == Some(0) {
        return TimeNotParsed;
      }
      var time := parsedTime.value;
      var lobby := manager.CreateLobby(ownerId, time, lobbySize, game, now);
      return Created(lobby, WaitingWindow(time, asap, now));
    }

    /**
     * `_close_lobby_internal`: reads the owner's lobby id first, which raises
     * when the owner has none, then closes the lobby through the manager. So
     * the "no active lobby" reply is never reached.
     */
    method CloseLobbyInternal(ownerId: int) returns (r: Result<bool, CloseError>)
      requires Valid()
      modifies manager, (if ownerId in manager.lobbies then {manager.lobbies[ownerId]} else {})`state
      ensures Valid()
      ensures manager.idCounter == old(manager.idCounter)
      ensures r != Ok(false)
      ensures ownerId !in old(manager.lobbies) ==>
                r == Err(NoLobby) && manager.lobbies == old(manager.lobbies) && manager.order == old(manager.order)
      ensures ownerId in old(manager.lobbies) && old(manager.lobbies[ownerId].state) != Completed ==>
                && r == Ok(true)
                && old(manager.lobbies)[ownerId].state == Completed
                && manager.lobbies == old(manager.lobbies) - {ownerId}
                && manager.order == Erase(old(manager.order), ownerId)
      ensures ownerId in old(manager.lobbies) && old(manager.lobbies[ownerId].state) == Completed ==>
                && r == Err(Raised(InvalidTransition(Completed, Completed)))
                && old(manager.lobbies)[ownerId].state == Completed
                && manager.lobbies == old(manager.lobbies) && manager.order == old(manager.order)
    {
      var lobby := manager.GetLobbyByOwner(ownerId);
      if lobby == null {
        return Err(NoLobby);
      }
      var closed := manager.CloseLobby(ownerId);
      match closed
      case Ok(found) => return Ok(found);
      case Err(e) => return Err(Raised(e));
    }

    /**
     * `_auto_close_lobby` once its timer runs out: nothing when the guard
     * does not fire; otherwise closes the owner's lobby. When the lobby is the
     * one registered for its owner, the close always succeeds.
     */
    method AutoCloseLobby(lobby: Lobby, armedIn: LobbyState) returns (r: Option<Result<bool, CloseError>>)
      requires Valid()
      modifies manager, (if lobby.owner in manager.lobbies then {manager.lobbies[lobby.owner]} else {})`state
      ensures Valid()
      ensures manager.idCounter == old(manager.idCounter)
      ensures r.Some? <==> old(AutoCloseFires(armedIn, lobby.state))
      ensures r.None? ==> manager.lobbies == old(manager.lobbies) && lobby.state == old(lobby.state)
      ensures r.Some? && lobby.owner in old(manager.lobbies) && old(manager.lobbies[lobby.owner]) == lobby ==>
                r == Some(Ok(true)) && lobby.state == Completed && lobby.owner !in manager.lobbies
    {
      if armedIn != lobby.state || lobby.state == Completed {
        return None;
      }
      var closed := CloseLobbyInternal(lobby.owner);
      return Some(closed);
    }

    /**
     * `handle_start_lobby`: refuses a completed lobby, a caller who is not in
     * it, and a non-forced start while PENDING, before calling `Lobby.start`.
     * The last guard is what keeps `start` from attempting PENDING to PENDING,
     * so a start request never raises. A successful start arms the six-hour
     * auto-close window of the now active lobby.
     */
    method HandleStartLobby(lobby: Lobby, userId: int, forced: bool, now: int) returns (r: StartOutcome)
      requires lobby.Valid()
      modifies lobby`state, lobby`players, lobby`fillers, lobby`startedAt
      ensures lobby.Valid()
      ensures !r.StartRaised?
      ensures old(lobby.state) == Completed ==> r == AlreadyCompleted
      ensures old(lobby.state) != Completed && !old(lobby.InLobby(userId)) ==> r == NotPlaying
      ensures old(lobby.state) == Pending && old(lobby.InLobby(userId)) && !forced ==> r == AlreadyStarting
      ensures r == AlreadyCompleted ==> old(lobby.state) == Completed
      ensures r == NotPlaying ==> old(lobby.state) != Completed && !old(lobby.InLobby(userId))
      ensures r == AlreadyStarting ==> old(lobby.state) == Pending && old(lobby.InLobby(userId)) && !forced
      ensures r in {AlreadyCompleted, NotPlaying, AlreadyStarting} ==>
                lobby.state == old(lobby.state) && lobby.players == old(lobby.players) && lobby.fillers == old(lobby.fillers)
      ensures r.Started? ==>
                && lobby.state == Active && lobby.players == r.roster && r.timeout == SixHours
                && |old(lobby.players)| <= |r.roster| <= |old(lobby.players)| + |old(lobby.fillers)|
                && lobby.fillers == old(lobby.fillers)[|r.roster| - |old(lobby.players)|..]
                && lobby.startedAt == Some(now)
      ensures !r.Started? ==>
                lobby.players == old(lobby.players) && lobby.fillers == old(lobby.fillers)
                && lobby.startedAt == old(lobby.startedAt)
      ensures forced && old(lobby.state) in {Waiting, Pending} && old(lobby.InLobby(userId)) ==>
                r.Started? && r.roster == FinalRoster(old(lobby.players), old(lobby.fillers), lobby.maxPlayers)
      ensures !forced && old(lobby.state) == Waiting && old(lobby.InLobby(userId)) ==>
                var roster := FinalRoster(old(lobby.players), old(lobby.fillers), lobby.maxPlayers);
                if |roster| == lobby.maxPlayers then r == Started(roster, SixHours)
                else r == OfferForceStart(roster) && lobby.state == Pending
      ensures old(lobby.state) == Active && old(lobby.InLobby(userId)) ==>
                r == OfferForceStart([]) && lobby.state == Active
      ensures r.OfferForceStart? && old(lobby.state) != Active ==>
                old(lobby.state) == Waiting && lobby.state == Pending && !forced
    {
      if lobby.IsCompleted() {
        return AlreadyCompleted;
      }
      if !lobby.InLobby(userId) {
        return NotPlaying;
      }
      if !forced && lobby.state == Pending {
        return AlreadyStarting;
      }
      var started := lobby.Start(forced, now);
      match started
      case Err(e) => return StartRaised(e);
      case Ok(reply) =>
        if reply.success {
          return Started(reply.roster, SixHours);
        }
        return OfferForceStart(reply.roster);
    }

    /**
     * `_handle_participant_dropout`: removes the participant and, when that
     * leaves the lobby empty, closes the owner's lobby.
     */
    method HandleParticipantDropout(lobby: Lobby, pid: int)
      returns (removed: LobbyRemoveResult, closed: Option<Result<bool, CloseError>>)
      requires Valid() && lobby.Valid()
      modifies lobby`players, lobby`fillers, manager
      modifies (if lobby.owner in manager.lobbies then {manager.lobbies[lobby.owner]} else {})`state
      ensures Valid() && lobby.Valid()
      ensures manager.idCounter == old(manager.idCounter)
      ensures closed.Some? <==> removed == LobbyEmpty
      ensures removed != LobbyEmpty ==> manager.lobbies == old(manager.lobbies)
      ensures old(lobby.state) == Completed ==>
                && removed == LobbyRemoveResult.LobbyCompleted
                && lobby.players == old(lobby.players) && lobby.fillers == old(lobby.fillers)
      ensures old(lobby.state) != Completed && Contains(old(lobby.players), pid) ==>
                && lobby.players == Without(old(lobby.players), pid) && lobby.fillers == old(lobby.fillers)
                && removed == (if lobby.players == [] && lobby.fillers == [] then LobbyEmpty else SuccessPlayer)
      ensures old(lobby.state) != Completed && !Contains(old(lobby.players), pid) && Contains(old(lobby.fillers), pid) ==>
                && lobby.fillers == Without(old(lobby.fillers), pid) && lobby.players == old(lobby.players)
                && removed == (if lobby.players == [] && lobby.fillers == [] then LobbyEmpty else SuccessFiller)
      ensures old(lobby.state) != Completed && !old(lobby.InLobby(pid)) ==>
                && removed == NotInLobby
                && lobby.players == old(lobby.players) && lobby.fillers == old(lobby.fillers)
      ensures old(lobby.state) != Completed && old(lobby.InLobby(pid)) && |old(lobby.GetParticipants())| == 1 ==>
                removed == LobbyEmpty
      ensures removed == LobbyEmpty && lobby.owner in old(manager.lobbies) && old(manager.lobbies[lobby.owner]) == lobby ==>
                closed == Some(Ok(true)) && lobby.state == Completed && lobby.owner !in manager.lobbies
    {
      removed := lobby.RemoveParticipant(pid);
      if removed == LobbyEmpty {
        var result := CloseLobbyInternal(lobby.owner);
        return removed, Some(result);
      }
      return removed, None;
    }

    /**
     * The checks `handle_voice_state_update` makes for one lobby: only an
     * active lobby whose players have all joined voice at some point, and only
     * when the member has left voice, is tested against the quorum; it closes
     * when no channel meets the threshold.
     */
    method VoiceClosure(lobby: Lobby, allJoinedVoice: bool, newChannel: VoiceChannel,
                        channels: seq<VoiceChannel>) returns (close: bool)
      ensures close <==> lobby.state == Active && allJoinedVoice && newChannel == None
                          && !Quorum(channels, |lobby.players|)
    {
      if !lobby.IsActive() || !allJoinedVoice || newChannel != None {
        return false;
      }
      var stillActive := StillActive(channels, |lobby.players|);
      return !stillActive;
    }

    /** The voice check for one lobby followed, when it decides so, by closing that lobby. */
    method HandleVoiceStateUpdate(lobby: Lobby, allJoinedVoice: bool, newChannel: VoiceChannel,
                                  channels: seq<VoiceChannel>) returns (r: Option<Result<bool, CloseError>>)
      requires Valid()
      modifies manager, (if lobby.owner in manager.lobbies then {manager.lobbies[lobby.owner]} else {})`state
      ensures Valid()
      ensures manager.idCounter == old(manager.idCounter)
      ensures r.Some? <==> old(lobby.state) == Active && allJoinedVoice && newChannel == None
                           && !Quorum(channels, old(|lobby.players|))
      ensures r.None? ==> manager.lobbies == old(manager.lobbies) && lobby.state == old(lobby.state)
      ensures r.Some? && lobby.owner in old(manager.lobbies) && old(manager.lobbies[lobby.owner]) == lobby ==>
                r == Some(Ok(true)) && lobby.state == Completed && lobby.owner !in manager.lobbies
    {
      var close := VoiceClosure(lobby, allJoinedVoice, newChannel, channels);
      if !close {
        return None;
      }
      var closed := CloseLobbyInternal(lobby.owner);
      return Some(closed);
    }
  }
}
