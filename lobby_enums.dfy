/**
 * The lobby's state enum, the result enums of its roster operations, and the
 * table of allowed state transitions.
 */
module LobbyEnums {

  /** Outcome of `add_player` / `add_filler`. */
  datatype LobbyAddResult = Success | AlreadyInLobby | LobbyFull | LobbyCompleted

  /** Outcome of `remove_participant`. */
  datatype LobbyRemoveResult = SuccessPlayer | SuccessFiller | NotInLobby | LobbyCompleted | LobbyEmpty

  /** Lifecycle of a lobby; `Pending` means a force-start decision is awaited. */
  datatype LobbyState = Waiting | Pending | Active | Completed

  /** The `ValueError` that `transition` raises for a pair outside the table. */
  datatype TransitionError = InvalidTransition(from: LobbyState, to: LobbyState)

  /**
   * The `TRANSITIONS` table: the states each state may move to. The two
   * states before the start may go to every other state, ACTIVE only to
   * COMPLETED, and COMPLETED nowhere.
   */
  function Successors(s: LobbyState): (r: set<LobbyState>)
    ensures s !in r
    ensures r == {} <==> s == Completed
    ensures s != Completed ==> Completed in r
    ensures Waiting in r || Pending in r ==> s != Active
  {
    match s
    case Waiting => {Pending, Active, Completed}
    case Pending => {Waiting, Active, Completed}
    case Active => {Completed}
    case Completed => {}
  }

  predicate CanTransition(from: LobbyState, to: LobbyState) {
    to in Successors(from)
  }

  /** A sequence of states in which every step is an allowed transition. */
  predicate IsPath(states: seq<LobbyState>) {
    forall i :: 0 <= i < |states| - 1 ==> CanTransition(states[i], states[i + 1])
  }

  /** How far along the lifecycle a state is: before start, started, closed. */
  function Phase(s: LobbyState): nat {
    match s
    case Waiting => 0
    case Pending => 0
    case Active => 1
    case Completed => 2
  }

  /** Along any path of allowed transitions the lifecycle never moves backwards. */
  lemma {:induction false} PhaseNeverDecreases(states: seq<LobbyState>, i: nat, j: nat)
    requires IsPath(states)
    requires i <= j < |states|
    ensures Phase(states[i]) <= Phase(states[j])
  {
    if i < j {
      PhaseNeverDecreases(states, i, j - 1);
      assert CanTransition(states[j - 1], states[j]);
    }
  }

  /** Once a lobby is active it can only be active or completed afterwards. */
  lemma {:induction false} ActiveNeverReturns(states: seq<LobbyState>, k: nat)
    requires IsPath(states) && |states| > 0 && states[0] == Active
    requires k < |states|
    ensures states[k] == Active || states[k] == Completed
  {
    PhaseNeverDecreases(states, 0, k);
  }
}
