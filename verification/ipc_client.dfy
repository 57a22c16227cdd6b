/**
 * The IPC client itself: one object holding the module state of the library,
 * whose methods update it in place. `Init`, `Receive`, `Handle` and `Tick` are
 * proved to have exactly the effect of `ClientState.Initialized`, `OnEvent`,
 * `Handle` and `OnTick`; the dialog upsert and removal loops are proved equal to
 * `DialogStore.Upserted` and `Removed`; the call controls and dialog requests
 * send for the dialog `Targets.CallTarget` or `Targets.RequestTarget` picks;
 * `GetMyParticipant` is `ParticipantResolver.MyParticipant` of the known user;
 * `Send`, `SetCurrSelectedDialog` and `WrapUpModeOnIncoming` append to, replace
 * or read one field.
 */
module IpcClient {
  import opened Wrappers
  import opened Messages
  import opened ParticipantResolver
  import opened DialogStore
  import opened Catalogs
  import opened Targets
  import ClientState

  class FinesseIpc {
    var listening: bool
    var currentUser: Option<User>
    var dialogs: seq<Dialog>
    var selectedDialog: Option<Dialog>
    var notReadyReasons: Option<seq<Entry>>
    var signoutReasons: Option<seq<Entry>>
    var phoneBooks: RawList
    var wrapupReasons: Option<seq<Entry>>
    var heartbeatArmed: bool
    var missedHBCounter: nat
    /** Every message written to the outbound key, in order. */
    ghost var outbox: seq<OutMsg>
    /** Every call of the registered listener, in order. */
    ghost var delivered: seq<Msg>

    ghost function State(): ClientState.Session
      reads this
    {
      ClientState.Session(listening, currentUser, dialogs, selectedDialog, notReadyReasons,
        signoutReasons, phoneBooks, wrapupReasons, heartbeatArmed, missedHBCounter, outbox, delivered)
    }

    ghost predicate Valid()
      reads this
    {
      ClientState.Valid(State())
    }

    constructor ()
      ensures Valid() && State() == ClientState.Initial()
    {
      listening, currentUser, dialogs, selectedDialog := false, None, [], None;
      notReadyReasons, signoutReasons, phoneBooks, wrapupReasons := None, None, Undefined, None;
      heartbeatArmed, missedHBCounter := false, 0;
      outbox, delivered := [], [];
    }

    /** Publishes `m` on the outbound key (the write and the immediate removal are one send). */
    method Send(m: OutMsg)
      modifies this`outbox
      ensures outbox == old(outbox) + [m]
    {
      outbox := outbox + [m];
    }

    /** Registers the listener and asks the gadget for the user and the dialogs. */
    method Init()
      requires Valid()
      modifies this
      ensures Valid() && State() == ClientState.Initialized(old(State()))
    {
      listening := true;
      Send(GetUser);
      Send(GetDialogs);
    }

    /** Records the dialog the application operates on; it is not checked against the store. */
    method SetCurrSelectedDialog(d: Option<Dialog>)
      modifies this`selectedDialog
      ensures selectedDialog == d
    {
      selectedDialog := d;
    }

    /** The wrap-up mode of the current user's settings; the user must be known. */
    method WrapUpModeOnIncoming() returns (mode: Option<string>)
      requires currentUser.Some?
      ensures mode == currentUser.value.wrapUpOnIncoming
    {
      mode := currentUser.value.wrapUpOnIncoming;
    }

    /** The agent's participant in `d`. The user must be known unless `d` lists an
        empty participant array, whose scan never reads the user. */
    method GetMyParticipant(d: Dialog) returns (p: Option<Participant>)
      requires currentUser.Some? || d.participants == Many([])
      ensures currentUser.Some? ==> p == MyParticipant(d, currentUser.value)
      ensures currentUser.Some? && p.Some? ==> IsAgentLeg(p.value, currentUser.value.extension)
      ensures currentUser.None? ==> p.None?
    {
      if currentUser.Some? {
        p := MyParticipant(d, currentUser.value);
      } else {
        p := None;
      }
    }

    /** Replaces every stored dialog with `d`'s id by `d`, or appends `d` when there is none. */
    method Upsert(d: Dialog)
      modifies this`dialogs
      ensures dialogs == Upserted(old(dialogs), d)
    {
      if |dialogs| > 0 {
        var found := false;
        var x := 0;
        while x < |dialogs|
          invariant x <= |dialogs| == |old(dialogs)|
          invariant forall i :: 0 <= i < x ==> dialogs[i] == (if old(dialogs)[i].id == d.id then d else old(dialogs)[i])
          invariant forall i :: x <= i < |dialogs| ==> dialogs[i] == old(dialogs)[i]
          invariant found <==> exists i :: 0 <= i < x && old(dialogs)[i].id == d.id
        {
          if dialogs[x].id == d.id {
            dialogs := dialogs[x := d];
            found := true;
          }
          x := x + 1;
        }
        if !found {
          dialogs := dialogs + [d];
        } else {
          assert dialogs == ReplaceById(old(dialogs), d);
        }
      } else {
        dialogs := dialogs + [d];
      }
    }

    /** Finds the last stored dialog with `id` and splices one dialog out at that
        position, or at position 0 when none was found. */
    method Remove(id: string)
      modifies this`dialogs
      ensures dialogs == Removed(old(dialogs), id)
    {
      if |dialogs| > 0 {
        var index: Option<nat> := None;
        var x := 0;
        while x < |dialogs|
          invariant x <= |dialogs|
          invariant index == LastIndexWithId(dialogs[..x], id)
        {
          assert dialogs[..x + 1][..x] == dialogs[..x];
          if dialogs[x].id == id {
            index := Some(x);
          }
          x := x + 1;
        }
        assert dialogs[..x] == dialogs;
        var start := if index.Some? then index.value else 0;
        dialogs := dialogs[..start] + dialogs[start + 1..];
      }
    }

    /** The storage-event handler: filter, decode, handle, reset the miss counter,
        then forward to the listener (a `pong` is consumed). */
    method Receive(key: string, newValue: Option<string>, parsed: Option<Msg>)
      requires Valid()
      modifies this
      ensures Valid() && State() == ClientState.OnEvent(old(State()), key, newValue, parsed)
    {
      ClientState.OnEventPreservesValid(State(), key, newValue, parsed);
      if !listening || key != InboundKey || newValue.None? || newValue.value == "" || parsed.None? {
        return;
      }
      var m := parsed.value;
      var ok := Handle(m);
      if !ok {
        return;
      }
      missedHBCounter := 0;
      if m.Pong? {
        return;
      }
      delivered := delivered + [m];
    }

    /** The switch on the message type; `ok` is false when the handler raises,
        in which case nothing has changed. */
    method Handle(m: Msg) returns (ok: bool)
      modifies this
      ensures ok == ClientState.Handle(old(State()), m).Some?
      ensures ok ==> State() == ClientState.Handle(old(State()), m).value
      ensures !ok ==> State() == old(State())
    {
      ok := true;
      match m {
        case ConnectionStatus(status) =>
          if status == Connected {
            Send(GetUser);
          }
        case UserUpdate(u) =>
          UpdateUser(u);
        case NewDialog(d) =>
          ok := StoreDialog(d);
        case DialogUpdate(d) =>
          ok := StoreDialog(d);
        case EndDialog(d) =>
          Remove(d.id);
        case NotReadyReasons(raw) =>
          if raw.Items? {
            notReadyReasons := Some(Normalized(raw.items));
          } else {
            ok := false;
          }
        case SignoutReasons(raw) =>
          if raw.Items? {
            signoutReasons := Some(Normalized(raw.items));
          } else {
            ok := false;
          }
        case WrapupReasons(raw) =>
          if raw.Items? {
            wrapupReasons := Some(Normalized(raw.items));
          } else {
            ok := false;
          }
        case PhoneBooks(raw) =>
          phoneBooks := raw;
        case ApiError =>
        case DesktopStatus =>
        case Pong =>
        case Unknown(_) =>
      }
    }

    /** `user-update`: replace the user; unless it logged out, ask for each catalog
        still unset and start the heartbeat timer if none runs. */
    method UpdateUser(u: User)
      modifies this
      ensures State() == ClientState.Handle(old(State()), UserUpdate(u)).value
    {
      currentUser := Some(u);
      if u.state != LogoutState {
        RequestUnsetCatalogs();
        if !heartbeatArmed {
          heartbeatArmed := true;
        }
      }
    }

    /** One request per catalog still unset, in a fixed order. */
    method RequestUnsetCatalogs()
      modifies this`outbox
      ensures outbox == old(outbox) + ClientState.RefreshRequests(State())
    {
      ghost var pending := [];
      if notReadyReasons.None? { Send(GetNotReadyReasons); pending := pending + [GetNotReadyReasons]; }
      assert outbox == old(outbox) + pending;
      if signoutReasons.None? { Send(GetSignoutReasons); pending := pending + [GetSignoutReasons]; }
      assert outbox == old(outbox) + pending;
      if phoneBooks.Undefined? { Send(GetPhoneBooks); pending := pending + [GetPhoneBooks]; }
      assert outbox == old(outbox) + pending;
      if wrapupReasons.None? { Send(GetWrapupReasons); pending := pending + [GetWrapupReasons]; }
      assert outbox == old(outbox) + pending;
      assert pending == ClientState.RefreshRequests(State());
    }

    /** `new-dialog` / `dialog-update`: resolving the agent's leg needs the user,
        so the handler raises when none is known and there is a leg to examine. */
    method StoreDialog(d: Dialog) returns (ok: bool)
      modifies this
      ensures ok == ClientState.StoreDialog(old(State()), d).Some?
      ensures ok ==> State() == ClientState.StoreDialog(old(State()), d).value
      ensures !ok ==> State() == old(State())
    {
      if currentUser.None? && ClientState.ExaminesParticipant(d.participants) {
        return false;
      }
      Upsert(d);
      return true;
    }

    /** One period of the heartbeat timer. */
    method Tick()
      requires Valid()
      modifies this
      ensures Valid() && State() == ClientState.OnTick(old(State()))
    {
      if heartbeatArmed {
        if missedHBCounter >= MissThreshold {
          delivered := delivered + [ConnectionStatus(MissedHeartbeats)];
          missedHBCounter := 0;
          heartbeatArmed := false;
        } else {
          Send(Ping);
          missedHBCounter := missedHBCounter + 1;
        }
      }
    }

    /** answer, drop, hold, retrieve, conference and transfer: one request for the
        chosen dialog, or nothing when there is none. */
    method Act(action: CallAction, opts: Option<ActionOptions>)
      modifies this`outbox
      ensures outbox == old(outbox) + match CallTarget(opts, selectedDialog, dialogs)
        case Some(d) => [DialogAction(action, d.id)]
        case None => []
    {
      var target := CallTarget(opts, selectedDialog, dialogs);
      if target.Some? {
        Send(DialogAction(action, target.value.id));
      }
    }

    /** makeConsultCall, singleStepTransferCall, updateCallData and updateWrapUpReason. */
    method Request(request: DialogRequest, opts: Option<ActionOptions>)
      modifies this`outbox
      ensures outbox == old(outbox) + match RequestTarget(request, opts, selectedDialog, dialogs)
        case Some(d) => [DialogRequestFor(request, d.id)]
        case None => []
    {
      var target := RequestTarget(request, opts, selectedDialog, dialogs);
      if target.Some? {
        Send(DialogRequestFor(request, target.value.id));
      }
    }
  }

  /** A client's life from construction: after `init` and a first READY user,
      three silent heartbeat periods only ping and the fourth reports the
      missed heartbeats and stops the timer. */
  method HeartbeatScenario()
  {
    var c := new FinesseIpc();
    c.Init();
    var u := User("READY", Some("1001"), Some("TRUE"));
    c.Receive(InboundKey, Some("{}"), Some(UserUpdate(u)));
    assert c.heartbeatArmed && c.missedHBCounter == 0 && c.delivered == [UserUpdate(u)];
    c.Tick();
    c.Tick();
    c.Tick();
    assert c.delivered == [UserUpdate(u)] && c.missedHBCounter == 3;
    c.Tick();
    assert !c.heartbeatArmed && c.delivered == [UserUpdate(u), ConnectionStatus(MissedHeartbeats)];
  }

  /** A dialog with a participant to examine that arrives before any user is
      dropped: resolving the agent's leg raises, so nothing is stored and the
      listener is not called. */
  method EarlyDialogScenario()
  {
    var c := new FinesseIpc();
    c.Init();
    var d := Dialog("D1", ActiveState, One(Participant(Some("1001"), Some(AgentDevice))));
    c.Receive(InboundKey, Some("{}"), Some(NewDialog(d)));
    assert c.dialogs == [] && c.delivered == [];
  }

  /** With a user known, a new dialog is stored and the agent's leg in it is found. */
  method DialogScenario()
  {
    var c := new FinesseIpc();
    c.Init();
    var u := User("READY", Some("1001"), Some("TRUE"));
    c.Receive(InboundKey, Some("{}"), Some(UserUpdate(u)));
    assert c.currentUser == Some(u) && c.dialogs == [] && c.selectedDialog.None?;
    var leg := One(Participant(Some("1001"), Some(AgentDevice)));
    var d := Dialog("D1", ActiveState, leg);
    UpsertNewAppends([], d);
    ghost var s0 := c.State();
    assert s0.dialogs == [] && s0.currentUser.Some?;
    assert Upserted(s0.dialogs, d) == [d];
    assert ClientState.StoreDialog(s0, d) == Some(s0.(dialogs := [d]));
    c.Receive(InboundKey, Some("{}"), Some(NewDialog(d)));
    assert c.dialogs == [d];
    var me := c.GetMyParticipant(d);
    assert me == Some(leg.participant);
  }

  /** A dialog with an empty participant array is stored even before any user is
      known; with nothing selected, `answer()` without options acts on it, the
      ACTIVE dialog. */
  method AnswerScenario()
  {
    var c := new FinesseIpc();
    c.Init();
    var d := Dialog("D1", ActiveState, Many([]));
    UpsertNewAppends([], d);
    ghost var s0 := c.State();
    assert s0.dialogs == [] && !ClientState.ExaminesParticipant(d.participants);
    assert Upserted(s0.dialogs, d) == [d];
    assert ClientState.StoreDialog(s0, d) == Some(s0.(dialogs := [d]));
    assert ClientState.Accepted(s0, InboundKey, Some("{}"));
    assert ClientState.OnEvent(s0, InboundKey, Some("{}"), Some(NewDialog(d))).dialogs == [d];
    c.Receive(InboundKey, Some("{}"), Some(NewDialog(d)));
    assert c.dialogs == [d] && c.selectedDialog.None?;
    assert ActiveDialog([d]) == Some(d) by { assert [d][0] == d; }
    c.Act(Answer, None);
    assert c.outbox == [GetUser, GetDialogs, DialogAction(Answer, "D1")];
  }
}
