# Finesse IPC client over local storage — a Dafny model

This project models the client side of the Cisco Finesse interprocess-communication
library `FinesseIPCLSapi.js`. A control application in one browser window talks to the
Finesse gadget in another window through the shared `localStorage` area. The gadget
writes JSON messages under the key `messageFromFinesse`. The client writes its requests
under `messageToFinesse`.

The client keeps the following module state:

- the current user;
- the ordered dialog (call) store;
- the dialog the application has selected;
- four catalogs: not-ready reasons, signout reasons, phone books and wrap-up reasons;
- a heartbeat timer with its missed-ping counter.

Its storage-event handler filters and decodes each inbound message. It updates that state,
resets the missed-ping counter and forwards every message except `pong` to the one
registered listener.

Layout, one module per file:

- `wrappers.dfy` (`Wrappers`): the `Option` datatype. `None` stands for JavaScript's `undefined`,
  except in a catalog element (`Messages.Entry`), where it stands for a JSON `null`.
- `messages.dfy` (`Messages`): users, dialogs, participants, catalog payloads, the inbound
  `Msg` and outbound `OutMsg` messages, and the protocol constants (`"messageFromFinesse"`,
  `"LOGOUT"`, `"ACTIVE"`, `"AGENT_DEVICE"`, `"Connected"`, `"Missed-Heartbeats"`, the
  threshold 3).
- `participant_resolver.dfy` (`ParticipantResolver`): finds the agent's own call leg.
- `dialog_store.dfy` (`DialogStore`): specifies upsert and removal, and the two
  last-match-wins lookups.
- `catalogs.dfy` (`Catalogs`): the reason-list normalisation.
- `targets.dfy` (`Targets`): picks the dialog a call control acts on.
- `client_state.dfy` (`ClientState`): the whole client state as a value `Session`. It also
  defines the effect of each event as a function: `OnEvent` for a storage event (through
  `Handle` and `Dispatch`), `OnTick` for one heartbeat period and `Initialized` for `init`.
  The lemmas about these functions state what the library promises.
- `ipc_client.dfy` (`IpcClient`): the class `FinesseIpc`. It holds the module state in
  fields and updates it in place. The dialog upsert and removal are the source's loops,
  with invariants, proved equal to `DialogStore.Upserted` and `DialogStore.Removed`.
  `Init`, `Receive`, `Handle` and `Tick` are proved to have exactly the effect of
  `ClientState.Initialized`, `OnEvent`, `Handle` and `OnTick`. The call controls and dialog
  requests are proved to send one message for the dialog `Targets.CallTarget` or
  `Targets.RequestTarget` picks, and `SetCurrSelectedDialog` to replace the selection only.
  Four client methods, `HeartbeatScenario`, `EarlyDialogScenario`, `DialogScenario` and
  `AnswerScenario`, drive the class through short sessions.

Points where the model follows what the code does rather than what its own comments and
branches suggest was meant:

- **Null catalogs.** The `else` branches at `FinesseIPCLSapi.js:199-201`, `:216-218` and
  `:232-234` are meant to store a null or missing catalog list as an empty list. They are
  never reached: the guard at `:189`, `:206` and `:222` joins its two tests with `||`, so it
  always holds. The next line reads `.length` of the null value and
  raises, so the handler stops. The model treats this as a handler fault: nothing changes
  and the listener is not called.
- **Dialogs before the user.** The participant resolver reads `currUserObj.extension`. A
  `new-dialog` or `dialog-update` that arrives before any `user-update` therefore raises,
  and the message is dropped. The exception is a dialog whose participant array is empty:
  the loop then never reads the user, and the dialog is stored.
- **Heartbeat timing.** The log line at `:853` reports the failure as "Missed 3 heartbeats
  in a row". In the code the counter reaches 3 after three pings, and the failure fires on
  the fourth silent period (`FourthSilentTickFires`). The failure event is a
  `connection-status` message with status `Missed-Heartbeats`.
- **`end-dialog`.** It removes the last stored dialog with the id. When no stored dialog
  has that id, `splice(undefined, 1)` removes the first dialog of a non-empty store
  (`RemoveUnknownDropsFirst`).
- **Upsert.** An update replaces every stored dialog carrying its id. Since every reachable
  store has unique ids (`ClientState.Valid`), this replaces exactly one dialog.

## Model

| member | source | states |
|---|---|---|
| ParticipantResolver.AgentLegIndex | FinesseIPCLSapi.js:276-289 | the array scan stops at the first participant that is on the agent device with the user's defined extension; no earlier one matches |
| ParticipantResolver.MyParticipant | FinesseIPCLSapi.js:272-305 | the result is the first agent leg among the dialog's participants; it is absent when none matches or the extension is undefined |
| ParticipantResolver.SingleIsListOfOne | FinesseIPCLSapi.js:290-304 | a single participant is resolved exactly as an array holding only it |
| ParticipantResolver.LaterLegsIgnored | FinesseIPCLSapi.js:277-288 | participants after the first match never change the result |
| DialogStore.LastIndexWithId | FinesseIPCLSapi.js:172-179 | the index the removal scan records is the last one with the id; it is absent exactly when the id is not stored |
| DialogStore.LastActiveIndex | FinesseIPCLSapi.js:317-323 | the index is the last dialog in state ACTIVE; it is absent exactly when none is ACTIVE |
| DialogStore.DialogWithId | FinesseIPCLSapi.js:336-349 | the lookup returns the last stored dialog with that id (no later one has it), is absent exactly when none is stored, and with unique ids returns that one dialog |
| DialogStore.ActiveDialog | FinesseIPCLSapi.js:313-326 | the active dialog is a stored ACTIVE dialog after which no dialog is ACTIVE (the last one wins); it is absent exactly when no dialog is ACTIVE |
| DialogStore.ReplaceById | FinesseIPCLSapi.js:143-152 | the update loop puts the dialog in place of every entry with its id, keeps the others and keeps the length |
| DialogStore.Upserted | FinesseIPCLSapi.js:140-164 | an upsert keeps the length when the id is stored and grows it by one otherwise; the new dialog is in the store |
| DialogStore.SpliceStart | FinesseIPCLSapi.js:170-182 | the splice starts at the last dialog with the id; with no such dialog `splice(undefined, 1)` starts at 0 |
| DialogStore.Removed | FinesseIPCLSapi.js:169-184 | `end-dialog` shortens a non-empty store by exactly one and leaves an empty store alone |
| DialogStore.UpsertKnownReplacesInPlace | FinesseIPCLSapi.js:143-152 | with unique ids, an update of a stored id replaces that dialog at its position and nothing else |
| DialogStore.UpsertNewAppends | FinesseIPCLSapi.js:155-164 | a dialog with a new id is appended at the end |
| DialogStore.UpsertKeepsIdsUnique | FinesseIPCLSapi.js:140-164 | an upsert keeps the ids unique |
| DialogStore.UpsertThenFind | FinesseIPCLSapi.js:140-164 | after an upsert, looking up the id yields the new dialog |
| DialogStore.UpsertKeepsOtherLookups | FinesseIPCLSapi.js:143-152 | an upsert leaves the lookup of every other id unchanged |
| DialogStore.RemoveKeepsIdsUnique | FinesseIPCLSapi.js:169-184 | a removal keeps the ids unique |
| DialogStore.RemoveKnown | FinesseIPCLSapi.js:169-182 | removing a stored id cuts out exactly its last entry and keeps the others in order; with unique ids the id is then gone |
| DialogStore.RemoveFromEmpty | FinesseIPCLSapi.js:169 | `end-dialog` on an empty store does nothing |
| DialogStore.RemoveUnknownDropsFirst | FinesseIPCLSapi.js:170-182 | `end-dialog` for an id that is not stored removes the first dialog |
| DialogStore.UpsertThenRemove | FinesseIPCLSapi.js:133-186 | upserting a new id and ending it restores the store; ending an updated id shrinks the store by one; the id is gone either way |
| DialogStore.UpsertAllShape | FinesseIPCLSapi.js:140-164 | any run of upserts on an empty store gives unique ids, one dialog per distinct id used |
| DialogStore.UpsertAllLookup | FinesseIPCLSapi.js:140-164 | after a run of upserts, each id maps to the dialog most recently upserted with it |
| Catalogs.Normalized | FinesseIPCLSapi.js:189-201 | a reason list is stored as `[]` exactly when it is empty or starts with null; otherwise it is stored unchanged |
| Catalogs.NormalizedExamples | FinesseIPCLSapi.js:187-235 | `[]` and `[null]` are stored as `[]`, and `[a, b]` is stored as it is |
| Targets.SelectedOrActive | FinesseIPCLSapi.js:467-470 | the fallback is the selected dialog if one is set, else the store's active dialog, the last ACTIVE one; it is absent exactly when neither exists |
| Targets.CallTarget | FinesseIPCLSapi.js:458-478 | without options the fallback applies; options without `dialogId` give no target; with `dialogId` the target is the stored dialog with that id, absent exactly when that id is not stored |
| Targets.RequestTarget | FinesseIPCLSapi.js:652-683 | missing options or a missing mandatory argument give no target; without `dialogId` the fallback applies; with it the `DialogWithId` lookup, absent exactly when the id is not stored |
| Targets.ExplicitIdIgnoresSelection | FinesseIPCLSapi.js:461-471 | with an explicit id a call control picks the same dialog whatever is selected, and none when the id is not stored |
| Targets.ExplicitIdSameForBothKinds | FinesseIPCLSapi.js:655-667 | with an explicit id and its argument, a dialog request picks the same dialog as a call control |
| Targets.OptionsWithoutIdDiffer | FinesseIPCLSapi.js:655-667 | for options without an id, a call control sends nothing while a dialog request falls back to selected or active |
| Targets.SelectionIsNotValidated | FinesseIPCLSapi.js:937-939 | a selected dialog is targeted even when the store no longer holds it |
| ClientState.Initialized | FinesseIPCLSapi.js:1093-1108 | `init` registers the listener, sends `get-user` then `get-dialogs`, and changes nothing else |
| ClientState.RefreshRequests | FinesseIPCLSapi.js:105-120 | at most four catalog requests, and none exactly when every catalog is already set |
| ClientState.StoreDialog | FinesseIPCLSapi.js:133-166 | a dialog message raises exactly when no user is known and a participant must be examined; otherwise only the store changes, to `Upserted` |
| ClientState.Handle | FinesseIPCLSapi.js:91-253 | the switch never calls the listener, never touches the counter, the listener registration or the selection, only appends to the outbox; only `user-update` can arm the timer and only dialog messages change the store |
| ClientState.Dispatch | FinesseIPCLSapi.js:247-260 | a decoded message reaches the listener at most once, never when it is `pong`; any change resets the counter; sends are only appended |
| ClientState.Accepted | FinesseIPCLSapi.js:72-79 | before `init`, on any key but `messageFromFinesse` (the client's own outbound key included), or with a null or empty value, the event is not seen |
| ClientState.OnEvent | FinesseIPCLSapi.js:66-262 | an event that is not seen or does not parse changes nothing; otherwise the listener is called at most once, sends are only appended and the listener registration and selection are kept |
| ClientState.OnTick | FinesseIPCLSapi.js:849-891 | a period touches only the outbox, the listener calls, the counter and the timer; it never arms the timer and causes at most one send or one listener call |
| ClientState.InitialValid | FinesseIPCLSapi.js:47-56 | the initial module state satisfies the invariant |
| ClientState.InitializedValid | FinesseIPCLSapi.js:1093-1108 | `init` keeps the invariant |
| ClientState.OnEventPreservesValid | FinesseIPCLSapi.js:66-262 | every storage event keeps dialog ids unique, the counter at most 3, and the timer tied to a registered listener |
| ClientState.OnTickPreservesValid | FinesseIPCLSapi.js:849-891 | every heartbeat period keeps the invariant |
| ClientState.RefreshRequestsCoverUnset | FinesseIPCLSapi.js:104-120 | each catalog is requested exactly when it is still unset |
| ClientState.RefreshRequestsOrdered | FinesseIPCLSapi.js:105-120 | the catalog requests go out at most once each, in the order not-ready, signout, phone books, wrap-up |
| ClientState.IgnoredEventsChangeNothing | FinesseIPCLSapi.js:72-89 | another key, an empty value or an unparsable body changes no state, sends nothing and calls no listener |
| ClientState.PongIsConsumed | FinesseIPCLSapi.js:247-250 | `pong` only resets the counter; it is not forwarded |
| ClientState.OthersAreForwardedOnce | FinesseIPCLSapi.js:251-260 | every other handled message, unknown types included, has its effect, resets the counter and reaches the listener exactly once |
| ClientState.PassiveMessagesChangeNothing | FinesseIPCLSapi.js:92-252 | `api-error`, `desktop-status`, `pong`, an unknown type and a connection status other than `Connected` leave the session as it was |
| ClientState.HandleChangesOnlyItsOwnPart | FinesseIPCLSapi.js:91-253 | only `user-update` changes the user or the timer, only each catalog message its catalog, only the dialog messages the store, and only `connection-status` and `user-update` send |
| ClientState.FaultingMessageChangesNothing | FinesseIPCLSapi.js:133-235 | a message whose handler raises changes nothing and reaches no listener |
| ClientState.FaultCases | FinesseIPCLSapi.js:133-235 | the handler raises exactly for a null or missing reason list, and for a dialog whose agent leg must be resolved before a user is known |
| ClientState.ReconnectRequestsUser | FinesseIPCLSapi.js:92-97 | `connection-status` `Connected` sends `get-user` and is then forwarded |
| ClientState.UserUpdateEffects | FinesseIPCLSapi.js:98-131 | `user-update` always replaces the user; unless LOGOUT it requests the unset catalogs and leaves the timer armed; LOGOUT sends nothing and leaves the timer alone |
| ClientState.FirstUserUpdateRequestsAllCatalogs | FinesseIPCLSapi.js:104-128 | a READY user with nothing cached causes exactly the four catalog requests in order and arms the timer |
| ClientState.CatalogMessagesStore | FinesseIPCLSapi.js:187-240 | reason lists are stored normalised; phone books are stored exactly as received |
| ClientState.DialogMessagesUpdateStore | FinesseIPCLSapi.js:133-186 | with a user known, dialog messages upsert the store and `end-dialog` removes from it |
| ClientState.NewThenHeld | FinesseIPCLSapi.js:133-166 | a new ACTIVE dialog then its HELD update leave one HELD dialog and no active dialog |
| ClientState.TickBelowThreshold | FinesseIPCLSapi.js:881-890 | below 3 misses a period sends exactly one ping and counts it |
| ClientState.TickAtThreshold | FinesseIPCLSapi.js:851-880 | at 3 misses a period sends nothing, reports `Missed-Heartbeats` once, resets the counter and disarms the timer |
| ClientState.TicksWithinThreshold | FinesseIPCLSapi.js:881-890 | silent periods that stay within the threshold only send pings and count them |
| ClientState.FourthSilentTickFires | FinesseIPCLSapi.js:849-890 | from a freshly armed timer, three silent periods only ping and the fourth reports the failure once and stops the timer |
| ClientState.InboundMessageDefersFailure | FinesseIPCLSapi.js:247-256 | any handled message, `pong` included, resets the counter so the next three periods report nothing |
| ClientState.TicksWhileDisarmed | FinesseIPCLSapi.js:869-877 | once the timer is cleared, periods have no effect |
| IpcClient.FinesseIpc.constructor | FinesseIPCLSapi.js:47-56 | the object starts in the initial module state |
| IpcClient.FinesseIpc.Send | FinesseIPCLSapi.js:837-842 | a send appends exactly one message to the outbound log |
| IpcClient.FinesseIpc.Init | FinesseIPCLSapi.js:1093-1108 | `init` registers the listener and sends `get-user` then `get-dialogs` |
| IpcClient.FinesseIpc.SetCurrSelectedDialog | FinesseIPCLSapi.js:937-939 | the selection is replaced and nothing else changes |
| IpcClient.FinesseIpc.WrapUpModeOnIncoming | FinesseIPCLSapi.js:779-785 | returns the wrap-up mode of the known user's settings |
| IpcClient.FinesseIpc.GetMyParticipant | FinesseIPCLSapi.js:272-305 | returns the known user's agent leg in the dialog; with no user and an empty participant array, nothing |
| IpcClient.FinesseIpc.Upsert | FinesseIPCLSapi.js:140-164 | the in-place loop and push leave the store equal to `Upserted` of the old store |
| IpcClient.FinesseIpc.Remove | FinesseIPCLSapi.js:169-184 | the in-place scan and splice leave the store equal to `Removed` of the old store |
| IpcClient.FinesseIpc.Receive | FinesseIPCLSapi.js:66-262 | the handler's new state, sends and listener calls are exactly `OnEvent` of the old state; the invariant is kept |
| IpcClient.FinesseIpc.Handle | FinesseIPCLSapi.js:91-253 | the switch has exactly the effect of `Handle`, or none when it raises |
| IpcClient.FinesseIpc.UpdateUser | FinesseIPCLSapi.js:98-131 | the `user-update` branch has exactly the effect `Handle` gives it |
| IpcClient.FinesseIpc.RequestUnsetCatalogs | FinesseIPCLSapi.js:105-120 | the four guarded sends append exactly `RefreshRequests` of the state |
| IpcClient.FinesseIpc.StoreDialog | FinesseIPCLSapi.js:133-166 | the dialog branch raises when no user is known and there is a participant to examine (a single record or a non-empty array); otherwise it upserts |
| IpcClient.FinesseIpc.Tick | FinesseIPCLSapi.js:849-891 | one timer period has exactly the effect of `OnTick`; the invariant is kept |
| IpcClient.FinesseIpc.Act | FinesseIPCLSapi.js:458-639 | answer, drop, hold, retrieve, conference and transfer send one request for `CallTarget`, or nothing when it is absent |
| IpcClient.FinesseIpc.Request | FinesseIPCLSapi.js:652-827 | consult call, single-step transfer and the call-data and wrap-up-reason updates send one request for `RequestTarget`, or nothing |

## Left out

- Storage I/O: `localStorage.setItem`/`removeItem` and the check that `localStorage` exists
  (`FinesseIPCLSapi.js:837-841`). A send is an append to the ghost `outbox`. The case of
  missing storage, where a send does nothing, is not modelled.
- `window.addEventListener` and the storage-event plumbing (`:1098`). They are modelled by
  the `listening` flag. Events that arrive before `init` are not seen.
- `JSON.parse`/`JSON.stringify`. The decoded message is a parameter of `Receive`, and
  `None` means the body did not parse. JSON values that parse but are not objects (`null`,
  numbers) are not modelled.
- Inbound messages that lack their `user` or `dialog` field, or whose dialog has no
  `participants` field or a `participants` object without `Participant`. The `Msg` datatype
  cannot express them. In the source most of them raise inside the handler, but not all
  alike: a `user-update` without `user` first clears the current user (`:100`) and then
  raises (`:104`); an `end-dialog` without `dialog` on an empty store is forwarded, because
  the guard at `:169` skips the loop that reads it.
- `setInterval`/`clearInterval` and the 60000 ms period. They are modelled by
  `heartbeatArmed` and one `Tick` per period. A period in which no timer is armed has no
  effect.
- `Date.now()` time stamps on `ping` and on the `Missed-Heartbeats` event, and every
  `console.log`.
- The agent-state commands `logout`, `ready`, `notReady` and `workReady`, and `makeCall`
  (`:359-446`). Each sends one message or none and chooses no dialog.
- The argument fields of dialog actions (`numberToDial`, `callvariables`, `wrapupReason`)
  and the exact message layout. `OutMsg` keeps only the command and the target dialog id.
- The plain getters (`getCurrUserObj`, `getDialogs`, `getCurrSelectedDialog`, the four
  catalog getters). They are reads of the class's public fields. `getActiveDialog` and
  `getDialogWithId` are `DialogStore.ActiveDialog` and `DialogStore.DialogWithId` applied
  to `dialogs`.
- A listener that itself raises, and a listener that triggers a nested dispatch.
- Record fields other than `id`, `state`, `extension`, `settings.wrapUpOnIncoming`,
  `mediaAddress` and `mediaAddressType`. Catalog records are opaque.
- IpcClient.FinesseIpc.WrapUpModeOnIncoming: requires a known user whose `settings` field
  is present. The source raises otherwise.
- IpcClient.FinesseIpc.GetMyParticipant: requires a known user or a dialog whose
  participant array is empty. In every other call without a user the source raises
  (`:282`, `:296`). Inside the handler this fault is modelled, in `StoreDialog`.
- A selection set to `null` through `setCurrSelectedDialog(null)`. `selectedDialog` only
  distinguishes a dialog from `undefined`. In the source a `null` selection passes the
  `undefined` tests (`:467`, `:473`) and the read of its `id` raises (`:476`; the same in
  every dialog command, e.g. `:663-672`, `:748-758`). The model cannot express a `null`
  selection, so it has no such raise. A raise here sends nothing, as an absent target does.
- Dialog commands called with `options` set to `null`. In the source the read of
  `options.dialogId` raises (`:462`, `:657`) and nothing is sent. `Option` models only a
  missing `options`.
- Inbound message types are taken as decoded. An `Unknown` message whose type name is one
  the switch handles (`Unknown("pong")`, say) is not excluded by the model. `OnEvent` would
  forward it, while the source would consume it. A correct decoder never produces one.
- Aliasing. `getDialogs` returns the live array, and the listener receives the same dialog
  object that was stored (`:148`, `:260`). The caller can therefore change the client's
  store. The model hands out values, so it does not capture this sharing.
