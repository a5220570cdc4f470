# LobbyBot core in Dafny

LobbyBot is a Discord bot. Users post group lobbies for a game. Each lobby has:

- an owner;
- a size;
- an ordered list of players;
- an ordered list of fillers (backups);
- a lifecycle state: WAITING, PENDING (a force-start offer is open), ACTIVE or COMPLETED.

This project models the bot's core as verified Dafny:

- **The current lobby model** (`LobbyEnums`, `LobbyPlayer`, `LobbyModel`, `LobbyManagement`):
  - the transition table and the player entry;
  - the lobby class with its roster operations and lifecycle;
  - the registry that maps owner ids to lobbies and hands out increasing lobby ids.
- **The earlier lobby model** (`LegacyPlayer`, `LegacyLobby`), kept as its own classes because it behaves differently:
  - it has no PENDING state;
  - it does no demotion to filler;
  - it reports a single success result for removals;
  - its `add_filler` returns nothing once the players are full.
- **The Wordle helper** (`WordleFeedback`, `WordleHints`, `WordleSolver`):
  - feedback colouring with repeated letters;
  - the hint accumulator;
  - the consistency predicate `is_valid` (`WordleHints.IsValid`);
  - candidate filtering;
  - the integer bucket part of guess scoring.
  
  The repository holds this code twice. `lobbybot/wordle/wordle_grader.py` and `lobbybot/wordle_grader.py` differ only in the emoji literals at lines 11-13. One set of members models both copies, and some rows below cite the second copy.
- **The image pool** (`ImageStore`): de-duplicating append, filter-remove and random pick over the stored entries.
- **The controller's decisions** (`LobbyControl`). These are the guards and arithmetic that decide which model operation runs:
  - the guards of lobby creation;
  - the auto-close windows and their stale-state guard;
  - the PENDING guard before start;
  - closing on an empty lobby;
  - the voice quorum.

Modelling choices:

- **Classes and invariants.** Objects whose fields the source updates in place are classes with `modifies` frames. Each lobby class keeps `Valid()`, which says:
  - ids are unique within each list;
  - no id is in both lists;
  - the players fit the lobby's size. A lobby created with a size below one still holds its owner; see `LobbyModel.Capacity`.
- **Exceptions.** A raised exception becomes an error value.
  - `transition` raising `ValueError` is `Err(InvalidTransition(from, to))`, and the state is left unchanged.
  - `start` from PENDING without force raises in the source, because PENDING to PENDING is not in the table. The model returns that error.
  - `LobbyManager.close_lobby` on a lobby that is already COMPLETED raises too, and the mapping is kept.
- **`_close_lobby_internal`.** It reads `get_lobby_by_owner(owner_id).id` before closing. A missing lobby therefore raises, and its "you did not have an active lobby" reply is never reached. `LobbyControl.LobbyController.CloseLobbyInternal` models that: `Err(NoLobby)`, and never `Ok(false)`.
- **Clocks, randomness and outside services become parameters:**
  - `time.time()` and `datetime.now()` become `now`;
  - `ASAP_TIME` becomes `asap`, because the module defining it is not part of this model;
  - `random.choice` becomes `pick`;
  - the HTTP check `validate_image` becomes `validate`;
  - the timezone lookup becomes `timezone`;
  - `parse_time_input` becomes `parsedTime`;
  - the voice channels of the participants become `channels`;
  - the player flag `joined_voice` becomes `allJoinedVoice`.
- **The voice threshold.** `num_curr_players * 0.5` is compared in integers as `2 * count >= n`; `LobbyControl.MeetsThreshold` states that this agrees with the comparison over the reals.
- **The model follows what the code defines:**
  - The controller refers to a ready check (`READY_CHECK`, `start_ready_check`), but `lobbybot/lobby/models/lobby_enums.py` defines no READY_CHECK state and no `LOBBY_IN_READY_CHECK` result for roster operations. The model has exactly the four states and the result values the enums define.
  - The voice quorum threshold is not configurable: the code fixes it at half the current players when there are more than three, and one otherwise.

## Model

| member | source | states |
|---|---|---|
| LobbyEnums.Successors | lobbybot/lobby/models/lobby_enums.py:22-27 | no state lists itself; only COMPLETED has no successor; every other state can move to COMPLETED; ACTIVE can never go back to WAITING or PENDING |
| LobbyEnums.PhaseNeverDecreases | lobbybot/lobby/models/lobby_enums.py:23-26 | along any sequence of allowed transitions a lobby never moves back from started to not started, nor out of COMPLETED |
| LobbyEnums.ActiveNeverReturns | lobbybot/lobby/models/lobby_enums.py:25-26 | once ACTIVE, every later state of an allowed sequence is ACTIVE or COMPLETED |
| LobbyPlayer.IntHash | lobbybot/lobby/models/player.py:16-17 | CPython's hash of an int: small non-negative ids hash to themselves, -1 hashes to -2, and no hash is -1 or reaches 2^61-1 in size |
| LobbyPlayer.Player.constructor | lobbybot/lobby/models/player.py:2-6 | a new entry keeps its id and force flag and is not ready |
| LobbyPlayer.Player.NewPlayer | lobbybot/lobby/models/player.py:2-6 | `Player(id)` with the default flag: a fresh entry, not force-added and not ready |
| LobbyPlayer.Player.ReadyUp | lobbybot/lobby/models/player.py:8-9 | afterwards the player is ready, whatever it was before |
| LobbyPlayer.Player.Equals | lobbybot/lobby/models/player.py:11-14 | an entry equals exactly the players and the bare integers that carry its id, and nothing else |
| LobbyPlayer.HashAgreesWithEquality | lobbybot/lobby/models/player.py:11-17 | equal operands hash alike, so an entry and its bare id meet in sets and dicts |
| LobbyPlayer.EqualityIgnoresForceFlag | lobbybot/lobby/models/player.py:11-14 | entries with the same id are equal both ways, and equal to the bare id, whatever their force flags |
| LobbyModel.Lobby.constructor | lobbybot/lobby/models/lobby.py:10-21 | a new lobby is WAITING with no start time; its only player is a fresh, not force-added, not ready entry for the owner; no fillers; the roster invariant holds |
| LobbyModel.Lobby.IsActive | lobbybot/lobby/models/lobby.py:30-31 | ACTIVE is exactly the state whose only way out is completion |
| LobbyModel.Lobby.IsCompleted | lobbybot/lobby/models/lobby.py:33-34 | COMPLETED is exactly the state with no way out |
| LobbyModel.Lobby.CanTransitionTo | lobbybot/lobby/models/lobby.py:36-37 | no state moves to itself and a completed lobby moves nowhere, while any other lobby can still be ended |
| LobbyModel.Lobby.Transition | lobbybot/lobby/models/lobby.py:36-43 | the state moves exactly when the pair is in the table; otherwise the error names the pair and the state is unchanged |
| LobbyModel.Lobby.IsFull | lobbybot/lobby/models/lobby.py:48-50 | for a lobby of size one or more that keeps the invariant, full means exactly that the players number the size |
| LobbyModel.Lobby.PlayingInLobby | lobbybot/lobby/models/lobby.py:52-54 | under the invariant, a player is never also a filler |
| LobbyModel.Lobby.InLobby | lobbybot/lobby/models/lobby.py:56-58 | in the lobby exactly when among the participants, and under the invariant on exactly one of the two lists |
| LobbyModel.Lobby.GetParticipants | lobbybot/lobby/models/lobby.py:77-78 | the players followed by the fillers, and under the invariant no id listed twice |
| LobbyModel.Lobby.EditTime | lobbybot/lobby/models/lobby.py:83-85 | the listed time becomes the new one |
| LobbyModel.Without | lobbybot/lobby/models/lobby.py:124 | the filtered list no longer holds the id; it is unchanged when the id was absent and strictly shorter when it was present |
| LobbyModel.WithoutKeepsOthers | lobbybot/lobby/models/lobby.py:127 | filtering keeps exactly the entries with another id: everything kept comes from the list and nothing with another id is lost |
| LobbyModel.WithoutDeletesOne | lobbybot/lobby/models/lobby.py:96 | on a list without repeated ids, filtering deletes exactly the one entry with the id and keeps the others in order |
| LobbyModel.WithoutPreservesInvariants | lobbybot/lobby/models/lobby.py:110 | filtering keeps a list's ids unique and keeps it apart from any list it was apart from |
| LobbyModel.Lobby.AddPlayer | lobbybot/lobby/models/lobby.py:87-100 | COMPLETED gives LOBBY_COMPLETED, a current player gives ALREADY_IN_LOBBY, no room gives LOBBY_FULL, and none of these changes the lists; otherwise SUCCESS: the id leaves the fillers, the others keep their order, and one fresh not-ready entry with the force flag is appended to the players; the invariant is kept |
| LobbyModel.Lobby.AddFiller | lobbybot/lobby/models/lobby.py:102-115 | COMPLETED gives LOBBY_COMPLETED and a current filler gives ALREADY_IN_LOBBY, with nothing changed; otherwise SUCCESS: the id leaves the players (demotion) and one fresh entry is appended to the uncapped filler list; the invariant is kept |
| LobbyModel.Lobby.RemoveParticipant | lobbybot/lobby/models/lobby.py:117-135 | COMPLETED and absent ids change nothing (LOBBY_COMPLETED, NOT_IN_LOBBY); a player leaves the players (SUCCESS_PLAYER), else a filler leaves the fillers (SUCCESS_FILLER); when both lists end up empty the result is LOBBY_EMPTY; the invariant is kept |
| LobbyModel.FinalRoster | lobbybot/lobby/models/lobby.py:137-142 | the roster starts with all players, followed by the earliest fillers in order, as many as are needed to reach the size and available |
| LobbyModel.Lobby.GetFinalPlayers | lobbybot/lobby/models/lobby.py:137-142 | the roster starts with the players, holds only participants, and under the invariant lists no id twice |
| LobbyModel.RosterFullExactly | lobbybot/lobby/models/lobby.py:152-154 | the roster reaches the size exactly when the players already number it or the fillers can top them up to it |
| LobbyModel.Lobby.Start | lobbybot/lobby/models/lobby.py:147-169 | outside WAITING and PENDING: (false, []) with nothing changed; a full roster or a forced start goes ACTIVE, appends exactly the fillers the roster used to the players, keeps the rest, stamps the start time and returns (true, roster); otherwise WAITING goes PENDING and returns (false, roster), while PENDING raises with nothing changed; the invariant is kept |
| LobbyModel.PromotionPreservesInvariants | lobbybot/lobby/models/lobby.py:157-162 | moving the first fillers to the end of the players keeps ids unique, the lists apart and the players within capacity |
| LobbyModel.Lobby.End | lobbybot/lobby/models/lobby.py:171-173 | afterwards the lobby is COMPLETED; ending an already completed lobby raises |
| LobbyModel.Lobby.ResetPending | lobbybot/lobby/models/lobby.py:175-178 | PENDING goes back to WAITING; every other state is kept |
| LobbyManagement.Erase | lobbybot/lobby/models/lobby_manager.py:39 | after deleting a key, the remaining keys are exactly the others |
| LobbyManagement.EraseDeletesOne | lobbybot/lobby/models/lobby_manager.py:38-39 | deleting a present key removes exactly its one position from the key order and keeps the rest in order |
| LobbyManagement.RemovalKeepsRegistry | lobbybot/lobby/models/lobby_manager.py:35-41 | deleting a lobby keeps the registry invariant: each lobby filed under its owner, each key once, and ids below the counter and increasing in creation order |
| LobbyManagement.LobbyManager.constructor | lobbybot/lobby/models/lobby_manager.py:6-8 | an empty registry whose counter starts at 0 |
| LobbyManagement.LobbyManager.CreateLobby | lobbybot/lobby/models/lobby_manager.py:10-18 | an owner who already has a lobby gets none, with nothing changed; otherwise a fresh WAITING lobby led by the owner is filed under the owner, with id equal to the counter and larger than every registered id; the counter grows by one |
| LobbyManagement.LobbyManager.GetLobbyById | lobbybot/lobby/models/lobby_manager.py:20-25 | a registered lobby with that id, or none exactly when no registered lobby has it |
| LobbyManagement.LobbyManager.GetAllLobbies | lobbybot/lobby/models/lobby_manager.py:27-29 | exactly the registered lobbies that are not COMPLETED, each once, in creation order |
| LobbyManagement.LobbyManager.GetLobbyByOwner | lobbybot/lobby/models/lobby_manager.py:31-33 | the owner's lobby, present exactly when the owner is registered, and owned by that owner |
| LobbyManagement.LobbyManager.CloseLobby | lobbybot/lobby/models/lobby_manager.py:35-41 | an unknown owner gives false with nothing changed; otherwise the lobby ends COMPLETED and its entry is deleted, giving true, unless it was already COMPLETED, in which case `end` raises and the entry stays; the invariant is kept |
| LegacyPlayer.NewPlayer | lobbybot/models/player.py:2-4 | `Player(id)` is not force-added |
| LegacyPlayer.Player.Equals | lobbybot/models/player.py:6-9 | an entry equals exactly the players and bare integers with its id |
| LegacyPlayer.HashAgreesWithEquality | lobbybot/models/player.py:6-12 | equal operands hash alike |
| LegacyPlayer.EqualityIgnoresForceFlag | lobbybot/models/player.py:6-9 | `Player(id)` equals a stored entry with that id whatever its flag, so `remove(Player(id))` finds it |
| LegacyLobby.Lobby.constructor | lobbybot/models/lobby.py:7-17 | a new lobby is WAITING with the owner as its only, unforced player, and no fillers |
| LegacyLobby.Lobby.InLobby | lobbybot/models/lobby.py:19-21 | in the lobby exactly when the id is among the players and fillers, and under the invariant on exactly one of the two lists |
| LegacyLobby.Lobby.EditTime | lobbybot/models/lobby.py:23-25 | the listed time becomes the new one |
| LegacyLobby.FirstIndex | lobbybot/models/lobby.py:35-36 | the first position holding the id |
| LegacyLobby.RemoveFirst | lobbybot/models/lobby.py:59 | `list.remove` deletes the first entry with the id and keeps the rest in order |
| LegacyLobby.DeletionPreservesInvariants | lobbybot/models/lobby.py:58-63 | deleting one entry keeps ids unique and the lists apart, and removes a unique id completely |
| LegacyLobby.Lobby.AddPlayer | lobbybot/models/lobby.py:27-40 | COMPLETED, ALREADY_IN_LOBBY and LOBBY_FULL change nothing; SUCCESS appends the entry to the players and drops its first filler entry if it had one; the invariant is kept |
| LegacyLobby.Lobby.AddFiller | lobbybot/models/lobby.py:42-51 | COMPLETED and anyone already in the lobby are refused; while the players have room the entry is appended to the fillers; once they are full nothing is returned and nothing added |
| LegacyLobby.Lobby.RemovePlayer | lobbybot/models/lobby.py:53-65 | the result is SUCCESS_PLAYER exactly when the id was on either list, and is never SUCCESS_FILLER; the entry leaves its list and the id is then gone; otherwise NOT_IN_LOBBY or LOBBY_COMPLETED with nothing changed |
| LegacyLobby.Lobby.GetFinalPlayers | lobbybot/models/lobby.py:67-76 | the roster starts with the players, takes every other entry from the fillers, and under the invariant lists no id twice |
| LegacyLobby.Lobby.Start | lobbybot/models/lobby.py:78-95 | only WAITING proceeds; success is a full roster or force, which goes ACTIVE and moves exactly the used fillers, in order, to the players; failure stays WAITING with the lists unchanged |
| LegacyLobby.PromotionPreservesInvariants | lobbybot/models/lobby.py:88-92 | moving the first fillers to the players keeps ids unique and the lists apart |
| LegacyLobby.Lobby.End | lobbybot/models/lobby.py:97-99 | COMPLETED from any state, with no check |
| WordleFeedback.Feedback | lobbybot/wordle/wordle_grader.py:63-80 | one mark per guess letter, each G, Y or B; G exactly where guess and target agree |
| WordleFeedback.SimulateFeedback | lobbybot/wordle/wordle_grader.py:63-80 | the two loops compute exactly the feedback |
| WordleFeedback.MarkGreens | lobbybot/wordle/wordle_grader.py:64-72 | after the first loop, exact matches are G and the rest B, and each letter's remaining count is its target count less its greens |
| WordleFeedback.MarkYellows | lobbybot/wordle/wordle_grader.py:74-80 | the second loop turns into Y exactly the non-green positions whose letter still has an unused copy at that point |
| WordleFeedback.AvailableNonNegative | lobbybot/wordle/wordle_grader.py:68-72 | greens never use more copies of a letter than the target has |
| WordleFeedback.HitsUpTo | lobbybot/wordle_grader.py:66-78 | up to any position, a letter's G and Y marks are its greens plus as many non-green occurrences as its unused copies allow |
| WordleFeedback.LetterHits | lobbybot/wordle/wordle_grader.py:66-78 | for every letter, its G plus Y marks number the smaller of its counts in the guess and in the target |
| WordleFeedback.YellowsLeftToRight | lobbybot/wordle_grader.py:74-78 | when a non-green occurrence is Y, every earlier non-green occurrence of that letter is Y too |
| WordleHints.Hints.constructor | lobbybot/wordle/wordle_grader.py:28-36 | the hints start from the given collections |
| WordleHints.Hints.AddHintsFromFeedback | lobbybot/wordle/wordle_grader.py:38-55 | greens, yellows, grays and bounds become their accumulated values over the paired marks; for complete feedback, every bounded letter stays gray |
| WordleHints.YellowPositions | lobbybot/wordle/wordle_grader.py:45-46 | each recorded position is marked Y and holds the letter |
| WordleHints.GreensMeaning | lobbybot/wordle/wordle_grader.py:42-43 | a position has a green hint exactly when it had one or is marked G, and a G position holds the guessed letter |
| WordleHints.YellowsMeaning | lobbybot/wordle/wordle_grader.py:45-46 | a letter's yellow list is its earlier list followed by its Y positions in order |
| WordleHints.GraysMeaning | lobbybot/wordle/wordle_grader.py:48-49 | a letter becomes gray exactly when one of its occurrences is marked B |
| WordleHints.MaxMeaning | lobbybot/wordle/wordle_grader.py:51-55 | exactly the letters used more often than they were matched get a bound, equal to the matched count; other bounds are kept |
| WordleHints.UnmatchedMeansGray | lobbybot/wordle_grader.py:51-55 | matched occurrences never outnumber the occurrences; a B makes them fewer, and for complete feedback fewer means some occurrence is B |
| WordleHints.BoundsStayGray | lobbybot/wordle/wordle_grader.py:25-26 | for complete feedback every letter with a bound is gray |
| WordleHints.IsValid | lobbybot/wordle/wordle_grader.py:106-130 | hints with nothing recorded admit every word, and an admitted word reaches every green position |
| WordleHints.CharAt | lobbybot/wordle/wordle_grader.py:120 | Python indexing: a negative position counts from the end, and out of range there is no letter |
| WordleHints.GraysStayValid | lobbybot/wordle/wordle_grader.py:108-116 | the gray and bound hints from the true feedback still admit the answer |
| WordleHints.GreensStayValid | lobbybot/wordle/wordle_grader.py:119-121 | the green hints from the true feedback still admit the answer |
| WordleHints.YellowLetterOccurs | lobbybot/wordle/wordle_grader.py:125-126 | a letter marked Y in the true feedback occurs in the answer |
| WordleHints.YellowPositionsMiss | lobbybot/wordle/wordle_grader.py:127-128 | the answer never holds a letter at a position where the true feedback marks it Y |
| WordleHints.YellowsStayValid | lobbybot/wordle/wordle_grader.py:124-128 | the yellow hints from the true feedback still admit the answer |
| WordleHints.AnswerStaysValid | lobbybot/wordle/wordle_grader.py:106-130 | hints from the true feedback of an equal-length guess never rule out an answer they admitted before |
| WordleSolver.KeepValid | lobbybot/wordle/wordle_grader.py:175-176 | a word is kept exactly when it is on the list and admitted, with every copy of an admitted word kept and no copy of another; the kept words are an order-preserving subsequence |
| WordleSolver.Solver.constructor | lobbybot/wordle/wordle_grader.py:86-104 | empty hints, and both candidate lists start as the full word lists |
| WordleSolver.Solver.MakeGuess | lobbybot/wordle/wordle_grader.py:173-176 | the hints grow by the guess's feedback against the answer; both lists keep exactly the still admitted words, in order; an admitted answer of the guess's length stays admitted and stays a candidate |
| WordleSolver.BucketStep | lobbybot/wordle_grader.py:162-164 | counting one more target into a new or existing bucket keeps the buckets exact |
| WordleSolver.Buckets | lobbybot/wordle/wordle_grader.py:161-164 | each distinct pattern is listed once, with the number of targets giving it; the sizes add up to the number of targets |
| WordleSolver.SquareTotalBounds | lobbybot/wordle/wordle_grader.py:167-169 | the squared sizes sum to at least the sizes' sum and at most its square |
| WordleSolver.Solver.BucketSquares | lobbybot/wordle/wordle_grader.py:154-170 | the sum of the squared sizes of the groups of remaining answers by the pattern the guess would get, over distinct patterns with exact counts; 0 when no answer remains; otherwise between the number of answers and its square |
| ImageStore.Strip | lobbybot/images/image_store.py:36 | the stripped url neither starts nor ends with whitespace |
| ImageStore.LeadingSpaces | lobbybot/images/image_store.py:36 | the length of the leading run of whitespace |
| ImageStore.StripIsSlice | lobbybot/images/image_store.py:36 | the stripped url is the slice of the input that starts right after its leading whitespace |
| ImageStore.StripDropsTrailingSpace | lobbybot/images/image_store.py:36 | everything dropped after that slice is whitespace |
| ImageStore.StripIdempotent | lobbybot/images/image_store.py:36 | stripping twice is stripping once |
| ImageStore.WithoutUrl | lobbybot/images/image_store.py:59 | keeps exactly the entries with another url, every copy of each, in order, so the url is gone |
| ImageStore.WithoutUrlKeepsUnique | lobbybot/images/image_store.py:59 | filtering keeps stored urls distinct |
| ImageStore.AppendKeepsUnique | lobbybot/images/image_store.py:37-41 | appending a url that is not stored keeps stored urls distinct |
| ImageStore.ImgStore.constructor | lobbybot/images/image_store.py:15-21 | the pool starts from the loaded entries |
| ImageStore.ImgStore.AddImg | lobbybot/images/image_store.py:35-44 | on the stripped url: a stored one gives (false, "Image already in pool.") before any validation; a rejected one gives (false, "Invalid image url."); both leave the pool unchanged; otherwise the entry is appended with its submitter and time and the result is (true, ""); stored urls stay distinct |
| ImageStore.ImgStore.GetRandomImg | lobbybot/images/image_store.py:54-56 | none exactly when the pool is empty, otherwise a stored url |
| ImageStore.ImgStore.RemoveImg | lobbybot/images/image_store.py:58-60 | every entry with exactly that url is dropped and the rest kept in order; stored urls stay distinct |
| LobbyControl.WaitingWindow | lobbybot/lobby/controllers/lobby_controller.py:63-67 | an ASAP lobby closes six hours from now; a scheduled one three hours after its listed time |
| LobbyControl.AutoCloseFires | lobbybot/lobby/controllers/lobby_controller.py:613-616 | a timer acts exactly when the lobby is still in the state it was armed in and can still be ended |
| LobbyControl.MeetsThreshold | lobbybot/lobby/controllers/lobby_controller.py:651-655 | the integer test agrees with the source's float comparison against half the players above three players and against one otherwise; a channel meeting it holds somebody |
| LobbyControl.Quorum | lobbybot/lobby/controllers/lobby_controller.py:640-656 | the lobby stays open only when some channel holds somebody |
| LobbyControl.StaleTimerIsInert | lobbybot/lobby/controllers/lobby_controller.py:613-616 | a timer armed in a phase the lobby has since left never fires, whatever happens afterwards |
| LobbyControl.TallyStep | lobbybot/lobby/controllers/lobby_controller.py:643-648 | counting one more participant, in voice or not, keeps the per-channel tally exact |
| LobbyControl.StillActive | lobbybot/lobby/controllers/lobby_controller.py:640-656 | the loops report true exactly when some occupied channel meets the threshold |
| LobbyControl.SmallLobbyQuorum | lobbybot/lobby/controllers/lobby_controller.py:650-652 | with three or fewer players the lobby stays open exactly while anybody is in voice |
| LobbyControl.TooFewInVoice | lobbybot/lobby/controllers/lobby_controller.py:651-656 | with more than three players, fewer than half of them in voice at all closes the lobby |
| LobbyControl.LobbyController.constructor | lobbybot/lobby/controllers/lobby_controller.py:26-30 | the controller starts with an empty registry |
| LobbyControl.LobbyController.CreateLobby | lobbybot/lobby/controllers/lobby_controller.py:32-82 | in order, refuses: a size below one, a missing timezone, an owner who has a lobby, a time that did not parse (including 0); a refusal changes nothing; a request past all four guards always creates a WAITING lobby with no start time, stamped with the creation time, whose only player is the owner and which has no fillers, filed under the owner with the next id, appended to the creation order, advancing the id counter by one, and armed with the waiting window, and only such a request does |
| LobbyControl.LobbyController.CloseLobbyInternal | lobbybot/lobby/controllers/lobby_controller.py:562-583 | never reports "no lobby" as false: a missing lobby is an error; a registered live lobby ends COMPLETED and its entry leaves the registry and the creation order; an already completed one raises, stays COMPLETED and stays registered; the id counter never moves |
| LobbyControl.LobbyController.AutoCloseLobby | lobbybot/lobby/controllers/lobby_controller.py:610-621 | acts exactly when the lobby is still in its armed state and not COMPLETED, and otherwise changes nothing; a registered lobby is then closed and deleted; the id counter never moves |
| LobbyControl.LobbyController.HandleStartLobby | lobbybot/lobby/controllers/lobby_controller.py:235-263 | refuses a completed lobby, an outsider and a non-forced start while PENDING, each exactly under its own condition and changing nothing; so a start request never raises; a forced start by a member always starts with the final roster; a member's non-forced start from WAITING starts when that roster is full and otherwise goes PENDING and offers a force start with it; a start moves exactly the fillers the roster used, keeps the rest and stamps the start time, and any other outcome leaves the lists and the start time alone; every start arms the six-hour active window (lobby_controller.py:674, 691) |
| LobbyControl.LobbyController.HandleParticipantDropout | lobbybot/lobby/controllers/lobby_controller.py:519-551 | always removes first: a COMPLETED lobby and an absent id change nothing (LOBBY_COMPLETED, NOT_IN_LOBBY); a player leaves the players (SUCCESS_PLAYER), else a filler leaves the fillers (SUCCESS_FILLER), and LOBBY_EMPTY replaces either when nobody is left; the owner's lobby is closed exactly when the removal reports LOBBY_EMPTY; the id counter never moves |
| LobbyControl.LobbyController.VoiceClosure | lobbybot/lobby/controllers/lobby_controller.py:632-659 | closes exactly when the lobby is ACTIVE, every player has joined voice, the member left voice, and no channel meets the quorum |
| LobbyControl.LobbyController.HandleVoiceStateUpdate | lobbybot/lobby/controllers/lobby_controller.py:623-665 | closes exactly when the voice check decides so, and otherwise changes nothing; a registered lobby is then closed and deleted; the id counter never moves |

## Left out

- Discord I/O is not modelled: messages, embeds, DMs, message deletion and every view class. The model covers the state each handler changes, not what it shows.
- asyncio is not modelled: the sleeps, `create_task`, and the bump/spam loop (`lobby_controller.py:585-608`). A timer is modelled by its guard (`LobbyControl.AutoCloseFires`) and its window.
- The ready-check protocol and the voice fields are not modelled. The controller calls these, but no model file defines them:
  - `start_ready_check`, `ready_up` on a lobby, `unready`, `all_ready`, `end_ready_check`, `start_from_ready_check`;
  - `get_lobbies_by_participant`, `ReadyResult` and `READY_CHECK`;
  - the `joined_voice` and `voice_state` player fields.
  
  The voice check takes the players' voice flags and channels as parameters.
- `edit_participant_voicestate` and `participant_joined_voice` (`lobbybot/lobby/models/lobby.py:60-74`) are not modelled. Their filler branch reads an attribute that does not exist.
- Python object identity and aliasing are not modelled for Lobby, Player and the returned lists. The source returns the live player list as the roster; the model returns the list's value.
- Wordle floating point and file reads are not modelled:
  - the `total / n` division and `find_optimal_guess`'s tolerance;
  - the percentages of `evaluate_guesses`;
  - reading the word lists and `word_char_counts` (the solver takes the lists as values).
- WordleHints.IsValid counts letters directly instead of reading `word_char_counts`. So it does not model the `KeyError` that the source raises for a word outside the guess list.
- WordleHints.IsValid treats a green or yellow position outside the word as a mismatch. In the source, that position raises `IndexError`.
- WordleHints.Hints.AddHintsFromFeedback visits the guess letters in order for the bound pass. The source visits the keys of a `Counter`, which gives the same map.
- WordleSolver.Solver.BucketSquares returns the integer sum of squared bucket sizes, not the float score that `evaluate_guess` returns.
- WordleSolver.Solver.MakeGuess keeps the answer admitted only for a guess as long as the answer, which is the game's use. For other lengths the contract says nothing about the answer.
- WordleHints.Hints.AddHintsFromFeedback keeps every bound gray only for complete feedback: as long as the guess, over G, Y and B.
- LobbyControl.LobbyController.VoiceClosure uses the number of players in the lobby as `len(lobby.get_players)`. In the source, `handle_voice_state_update` (`lobby_controller.py:636`, `651`) and `_handle_after_starting_lobby` (`670`, `682`, `694`) read `get_players` as an attribute, but `lobbybot/lobby/models/lobby.py:80-81` defines it as a method, so those lines would raise `TypeError` against that `Lobby`; the model follows the evident intent. Its `channels` parameter stands for the voice channels of `lobby.get_participants()` (`lobby_controller.py:642`); the model does not tie the two together.
- LobbyModel.Lobby.IsFull is stated only for sizes of one or more. With a smaller size the source reports full for any roster.
- LobbyControl.LobbyController.AutoCloseLobby states a successful close only for a lobby that is the one registered for its owner. Otherwise the close's result follows `CloseLobbyInternal`.
- LobbyControl.LobbyController.HandleParticipantDropout states a successful close only for a lobby that is the one registered for its owner.
- LobbyControl.LobbyController.HandleVoiceStateUpdate states a successful close only for a lobby that is the one registered for its owner.
- ImageStore.ImgStore.GetRandomImg states membership of the returned url, not uniform randomness. The random choice is the `pick` parameter.
- ImageStore.ImgStore.AddImg takes the result of `validate_image` (an HTTP HEAD request) as the `validate` parameter and the timestamp as `now`. `load` and `save` (the JSON file) are not modelled, and the constructor takes the loaded entries.
- LobbyPlayer.Player.Equals reduces Python's `==` against arbitrary objects to three kinds of operand: another player, an integer, or anything else.
- Time parsing, timezone storage, `ASAP_TIME`'s value and `datetime.now()` are not modelled; each is a parameter.
- The earlier Discord bots are not modelled: `main.py`, `callumbot/` and `lobbybot/lobby.py`. Nor are the entry points or the settings files.
