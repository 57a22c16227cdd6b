/**
 * The state of the IPC client as a value, and the effect of each event on it:
 * an inbound storage event (OnEvent), a heartbeat period elapsing (OnTick) and
 * initialisation (Initialized). `outbox` records every message sent and
 * `delivered` every call of the registered listener, in order.
 */
module ClientState {
  import opened Wrappers
  import opened Messages
  import opened DialogStore
  import opened Catalogs

  datatype Session = Session(
    listening: bool,
    currentUser: Option<User>,
    dialogs: seq<Dialog>,
    selectedDialog: Option<Dialog>,
    notReadyReasons: Option<seq<Entry>>,
    signoutReasons: Option<seq<Entry>>,
    phoneBooks: RawList,
    wrapupReasons: Option<seq<Entry>>,
    heartbeatArmed: bool,
    missedHBCounter: nat,
    outbox: seq<OutMsg>,
    delivered: seq<Msg>)

  /** The state before `init`: nothing known, nothing cached, no timer. */
  function Initial(): Session
  {
    Session(false, None, [], None, None, None, Undefined, None, false, 0, [], [])
  }

  /** What every reachable state satisfies. */
  predicate Valid(s: Session)
  {
    && UniqueIds(s.dialogs)
    && s.missedHBCounter <= MissThreshold
    && (s.heartbeatArmed ==> s.listening)
  }

  function Send(s: Session, m: OutMsg): Session
  {
    s.(outbox := s.outbox + [m])
  }

  /** `init`: register the listener, then ask for the user and for the dialogs. */
  function Initialized(s: Session): (r: Session)
    ensures r.listening
    ensures r.outbox == s.outbox + [GetUser, GetDialogs]
    ensures r.(listening := s.listening, outbox := s.outbox) == s
  {
    Send(Send(s.(listening := true), GetUser), GetDialogs)
  }

  /** Position of each catalog request in the order they are sent. */
  function Rank(m: OutMsg): nat
  {
    match m
    case GetNotReadyReasons => 0
    case GetSignoutReasons => 1
    case GetPhoneBooks => 2
    case GetWrapupReasons => 3
    case _ => 4
  }

  /** The catalog requests a non-LOGOUT `user-update` sends: one per catalog still unset. */
  function RefreshRequests(s: Session): (r: seq<OutMsg>)
    ensures |r| <= 4
    ensures r == [] <==>
      s.notReadyReasons.Some? && s.signoutReasons.Some? && !s.phoneBooks.Undefined? && s.wrapupReasons.Some?
  {
    (if s.notReadyReasons.None? then [GetNotReadyReasons] else [])
    + (if s.signoutReasons.None? then [GetSignoutReasons] else [])
    + (if s.phoneBooks.Undefined? then [GetPhoneBooks] else [])
    + (if s.wrapupReasons.None? then [GetWrapupReasons] else [])
  }

  /** The requests in `r` follow the sending order strictly (so none is repeated). */
  predicate InRankOrder(r: seq<OutMsg>)
  {
    forall i, j :: 0 <= i < j < |r| ==> Rank(r[i]) < Rank(r[j])
  }

  /** Every request in `r` has a rank in `lo..hi`. */
  predicate RanksWithin(r: seq<OutMsg>, lo: nat, hi: nat)
  {
    forall i :: 0 <= i < |r| ==> lo <= Rank(r[i]) < hi
  }

  lemma OrderedConcat(x: seq<OutMsg>, y: seq<OutMsg>, lo: nat, mid: nat, hi: nat)
    requires InRankOrder(x) && InRankOrder(y)
    requires lo <= mid <= hi
    requires RanksWithin(x, lo, mid) && RanksWithin(y, mid, hi)
    ensures InRankOrder(x + y) && RanksWithin(x + y, lo, hi)
  {
    var r := x + y;
    forall i, j | 0 <= i < j < |r|
      ensures Rank(r[i]) < Rank(r[j])
    {
      if j < |x| {
        assert r[i] == x[i] && r[j] == x[j];
      } else if i < |x| {
        assert r[i] == x[i] && r[j] == y[j - |x|];
      } else {
        assert r[i] == y[i - |x|] && r[j] == y[j - |x|];
      }
    }
    forall i | 0 <= i < |r|
      ensures lo <= Rank(r[i]) < hi
    {
      if i < |x| {
        assert r[i] == x[i];
        assert lo <= Rank(x[i]) < mid;
      } else {
        assert r[i] == y[i - |x|];
        assert mid <= Rank(y[i - |x|]) < hi;
      }
    }
  }

  /** Each catalog is requested exactly when it is unset. */
  lemma RefreshRequestsCoverUnset(s: Session)
    ensures var r := RefreshRequests(s);
      && (GetNotReadyReasons in r <==> s.notReadyReasons.None?)
      && (GetSignoutReasons in r <==> s.signoutReasons.None?)
      && (GetPhoneBooks in r <==> s.phoneBooks.Undefined?)
      && (GetWrapupReasons in r <==> s.wrapupReasons.None?)
  {
  }

  /** The requests go out at most once each, in the order not-ready, signout,
      phone books, wrap-up. */
  lemma RefreshRequestsOrdered(s: Session)
    ensures InRankOrder(RefreshRequests(s)) && RanksWithin(RefreshRequests(s), 0, 4)
  {
    var a := if s.notReadyReasons.None? then [GetNotReadyReasons] else [];
    var b := if s.signoutReasons.None? then [GetSignoutReasons] else [];
    var c := if s.phoneBooks.Undefined? then [GetPhoneBooks] else [];
    var d := if s.wrapupReasons.None? then [GetWrapupReasons] else [];
    assert RefreshRequests(s) == a + b + c + d;
    OrderedConcat(a, b, 0, 1, 2);
    OrderedConcat(a + b, c, 0, 2, 3);
    OrderedConcat(a + b + c, d, 0, 3, 4);
  }

  /** Whether resolving the agent's participant dereferences the user: a single
      participant always is examined, an array only when it is non-empty. */
  predicate ExaminesParticipant(ps: Participants)
  {
    ps.One? || |ps.list| > 0
  }

  /** `new-dialog` / `dialog-update`: resolve the agent's leg (result unused), then upsert.
      With no user known yet the resolution raises, and the handler stops. */
  function StoreDialog(s: Session, d: Dialog): (r: Option<Session>)
    ensures r.None? <==> s.currentUser.None? && ExaminesParticipant(d.participants)
    ensures r.Some? ==> r.value.dialogs == Upserted(s.dialogs, d) && r.value.(dialogs := s.dialogs) == s
  {
    if s.currentUser.None? && ExaminesParticipant(d.participants) then None
    else Some(s.(dialogs := Upserted(s.dialogs, d)))
  }

  /** The type-specific part of the receiver; `None` when the handler raises
      before reaching the listener (the state is then left as it was). */
  function Handle(s: Session, m: Msg): (r: Option<Session>)
    ensures r.Some? ==> r.value.listening == s.listening && r.value.selectedDialog == s.selectedDialog
    ensures r.Some? ==> r.value.delivered == s.delivered && r.value.missedHBCounter == s.missedHBCounter
    ensures r.Some? ==> s.outbox <= r.value.outbox
    ensures r.Some? && r.value.heartbeatArmed != s.heartbeatArmed ==> m.UserUpdate?
    ensures r.Some? && r.value.dialogs != s.dialogs ==> m.NewDialog? || m.DialogUpdate? || m.EndDialog?
  {
    match m
    case ConnectionStatus(status) =>
      Some(if status == Connected then Send(s, GetUser) else s)
    case UserUpdate(u) =>
      if u.state == LogoutState then Some(s.(currentUser := Some(u)))
      else Some(s.(currentUser := Some(u), outbox := s.outbox + RefreshRequests(s), heartbeatArmed := true))
    case NewDialog(d) => StoreDialog(s, d)
    case DialogUpdate(d) => StoreDialog(s, d)
    case EndDialog(d) => Some(s.(dialogs := Removed(s.dialogs, d.id)))
    case NotReadyReasons(raw) =>
      if raw.Items? then Some(s.(notReadyReasons := Some(Normalized(raw.items)))) else None
    case SignoutReasons(raw) =>
      if raw.Items? then Some(s.(signoutReasons := Some(Normalized(raw.items)))) else None
    case WrapupReasons(raw) =>
      if raw.Items? then Some(s.(wrapupReasons := Some(Normalized(raw.items)))) else None
    case PhoneBooks(raw) => Some(s.(phoneBooks := raw))
    case ApiError => Some(s)
    case DesktopStatus => Some(s)
    case Pong => Some(s)
    case Unknown(_) => Some(s)
  }

  /** A decoded message: handle it, reset the miss counter and, unless it is a
      `pong`, hand it to the listener. */
  function Dispatch(s: Session, m: Msg): (r: Session)
    ensures r.listening == s.listening && r.selectedDialog == s.selectedDialog
    ensures s.outbox <= r.outbox && s.delivered <= r.delivered && |r.delivered| <= |s.delivered| + 1
    ensures |r.delivered| > |s.delivered| ==> r.delivered[|s.delivered|] == m && !m.Pong?
    ensures r != s ==> r.missedHBCounter == 0
  {
    match Handle(s, m)
    case None => s
    case Some(t) =>
      if m.Pong? then t.(missedHBCounter := 0)
      else t.(missedHBCounter := 0, delivered := t.delivered + [m])
  }

  /** The receiver sees the event: the listener is registered, the key is the
      inbound key and the new value is neither null nor empty. */
  predicate Accepted(s: Session, key: string, newValue: Option<string>): (b: bool)
    ensures !s.listening || key != InboundKey || newValue.None? || newValue == Some("") ==> !b
    ensures key == OutboundKey ==> !b
  {
    s.listening && key == InboundKey && newValue.Some? && newValue.value != ""
  }

  /** A storage event; `parsed` is the result of decoding `newValue` (`None` when it is not JSON). */
  function OnEvent(s: Session, key: string, newValue: Option<string>, parsed: Option<Msg>): (r: Session)
    ensures !Accepted(s, key, newValue) || parsed.None? ==> r == s
    ensures r.listening == s.listening && r.selectedDialog == s.selectedDialog
    ensures s.outbox <= r.outbox && s.delivered <= r.delivered && |r.delivered| <= |s.delivered| + 1
  {
    if Accepted(s, key, newValue) && parsed.Some? then Dispatch(s, parsed.value) else s
  }

  /** One heartbeat period: with the timer armed, either report the missed
      heartbeats and stop, or ping and count the ping as missed until answered. */
  function OnTick(s: Session): (r: Session)
    ensures r.(outbox := s.outbox, delivered := s.delivered, missedHBCounter := s.missedHBCounter,
      heartbeatArmed := s.heartbeatArmed) == s
    ensures r.heartbeatArmed ==> s.heartbeatArmed
    ensures s.outbox <= r.outbox && s.delivered <= r.delivered
    ensures |r.outbox| + |r.delivered| <= |s.outbox| + |s.delivered| + 1
  {
    if !s.heartbeatArmed then s
    else if s.missedHBCounter >= MissThreshold then
      s.(delivered := s.delivered + [ConnectionStatus(MissedHeartbeats)], missedHBCounter := 0, heartbeatArmed := false)
    else Send(s, Ping).(missedHBCounter := s.missedHBCounter + 1)
  }

  /** `n` consecutive heartbeat periods with no inbound message. */
  function Ticks(s: Session, n: nat): Session
  {
    if n == 0 then s else OnTick(Ticks(s, n - 1))
  }

  function Pings(n: nat): (r: seq<OutMsg>)
    ensures |r| == n && forall i :: 0 <= i < n ==> r[i] == Ping
  {
    if n == 0 then [] else Pings(n - 1) + [Ping]
  }

  // ---------------------------------------------------------------------------
  // Invariants

  lemma InitialValid()
    ensures Valid(Initial())
  {
  }

  lemma InitializedValid(s: Session)
    requires Valid(s)
    ensures Valid(Initialized(s))
  {
  }

  /** Every inbound event keeps the store's ids unique, the counter within bounds
      and the timer tied to a registered listener. */
  lemma OnEventPreservesValid(s: Session, key: string, newValue: Option<string>, parsed: Option<Msg>)
    requires Valid(s)
    ensures Valid(OnEvent(s, key, newValue, parsed))
  {
    if Accepted(s, key, newValue) && parsed.Some? {
      match parsed.value
      case NewDialog(d) => UpsertKeepsIdsUnique(s.dialogs, d);
      case DialogUpdate(d) => UpsertKeepsIdsUnique(s.dialogs, d);
      case EndDialog(d) => RemoveKeepsIdsUnique(s.dialogs, d.id);
      case _ =>
    }
  }

  lemma OnTickPreservesValid(s: Session)
    requires Valid(s)
    ensures Valid(OnTick(s))
  {
  }

  // ---------------------------------------------------------------------------
  // The receiver

  /** An event on another key, with an empty value, or whose body does not parse
      changes nothing: no state, no send, no listener call. */
  lemma IgnoredEventsChangeNothing(s: Session, key: string, newValue: Option<string>, parsed: Option<Msg>)
    requires key != InboundKey || newValue.None? || newValue == Some("") || parsed.None?
    ensures OnEvent(s, key, newValue, parsed) == s
  {
  }

  /** A `pong` resets the counter and is not forwarded. */
  lemma PongIsConsumed(s: Session, key: string, newValue: Option<string>)
    requires Accepted(s, key, newValue)
    ensures OnEvent(s, key, newValue, Some(Pong)) == s.(missedHBCounter := 0)
  {
  }

  /** Every other message that is handled without raising resets the counter and
      reaches the listener exactly once, after the handler's own effects. */
  lemma OthersAreForwardedOnce(s: Session, key: string, newValue: Option<string>, m: Msg)
    requires Accepted(s, key, newValue) && !m.Pong? && Handle(s, m).Some?
    ensures OnEvent(s, key, newValue, Some(m)) ==
      Handle(s, m).value.(missedHBCounter := 0, delivered := s.delivered + [m])
  {
    match m
    case ConnectionStatus(_) =>
    case UserUpdate(_) =>
    case NewDialog(d) =>
    case DialogUpdate(d) =>
    case EndDialog(_) =>
    case NotReadyReasons(_) =>
    case SignoutReasons(_) =>
    case WrapupReasons(_) =>
    case PhoneBooks(_) =>
    case ApiError =>
    case DesktopStatus =>
    case Unknown(_) =>
  }

  /** `api-error`, `desktop-status`, `pong`, an unknown type and a connection status
      other than `Connected` leave the session as it was. */
  lemma PassiveMessagesChangeNothing(s: Session, m: Msg)
    requires || m.ApiError? || m.DesktopStatus? || m.Pong? || m.Unknown?
             || (m.ConnectionStatus? && m.connectionStatus != Connected)
    ensures Handle(s, m) == Some(s)
  {
  }

  /** Each part of the session has one branch of the switch that may change it:
      the user only `user-update`, each catalog only its own message, the store
      only the dialog messages, and only `connection-status` and `user-update` send. */
  lemma HandleChangesOnlyItsOwnPart(s: Session, m: Msg)
    requires Handle(s, m).Some?
    ensures var t := Handle(s, m).value;
      && (t.currentUser != s.currentUser ==> m.UserUpdate?)
      && (t.outbox != s.outbox ==> m.ConnectionStatus? || m.UserUpdate?)
      && (t.dialogs != s.dialogs ==> m.NewDialog? || m.DialogUpdate? || m.EndDialog?)
      && (t.notReadyReasons != s.notReadyReasons ==> m.NotReadyReasons?)
      && (t.signoutReasons != s.signoutReasons ==> m.SignoutReasons?)
      && (t.wrapupReasons != s.wrapupReasons ==> m.WrapupReasons?)
      && (t.phoneBooks != s.phoneBooks ==> m.PhoneBooks?)
      && (t.heartbeatArmed != s.heartbeatArmed ==> m.UserUpdate?)
  {
  }

  /** A message whose handler raises changes nothing and reaches nobody. */
  lemma FaultingMessageChangesNothing(s: Session, key: string, newValue: Option<string>, m: Msg)
    requires Handle(s, m).None?
    ensures OnEvent(s, key, newValue, Some(m)) == s
  {
  }

  /** The only messages whose handler raises: a reason catalog that is null or
      missing, and a dialog that needs the agent's leg resolved before any user is known. */
  lemma FaultCases(s: Session, m: Msg)
    ensures Handle(s, m).None? <==>
      || (m.NotReadyReasons? && !m.notReadyReasons.Items?)
      || (m.SignoutReasons? && !m.signoutReasons.Items?)
      || (m.WrapupReasons? && !m.wrapupReasons.Items?)
      || ((m.NewDialog? || m.DialogUpdate?) && s.currentUser.None? && ExaminesParticipant(m.dialog.participants))
  {
  }

  /** `connection-status` `Connected` asks for the user again before forwarding. */
  lemma ReconnectRequestsUser(s: Session, key: string, newValue: Option<string>)
    requires Accepted(s, key, newValue)
    ensures OnEvent(s, key, newValue, Some(ConnectionStatus(Connected))).outbox == s.outbox + [GetUser]
    ensures OnEvent(s, key, newValue, Some(ConnectionStatus(Connected))).delivered ==
      s.delivered + [ConnectionStatus(Connected)]
  {
  }

  /** `user-update` always replaces the user; unless the new state is LOGOUT it asks for
      every catalog still unset and leaves the heartbeat armed. A LOGOUT sends nothing
      and leaves the heartbeat as it was. */
  lemma UserUpdateEffects(s: Session, key: string, newValue: Option<string>, u: User)
    requires Accepted(s, key, newValue)
    ensures var t := OnEvent(s, key, newValue, Some(UserUpdate(u)));
      && t.currentUser == Some(u)
      && t.dialogs == s.dialogs
      && t.delivered == s.delivered + [UserUpdate(u)]
      && (u.state == LogoutState ==> t.outbox == s.outbox && t.heartbeatArmed == s.heartbeatArmed)
      && (u.state != LogoutState ==> t.outbox == s.outbox + RefreshRequests(s) && t.heartbeatArmed)
  {
  }

  /** A non-LOGOUT user with nothing cached yields the four catalog requests in order and arms the timer. */
  lemma FirstUserUpdateRequestsAllCatalogs(s: Session, key: string, newValue: Option<string>)
    requires Accepted(s, key, newValue) && !s.heartbeatArmed
    requires s.notReadyReasons.None? && s.signoutReasons.None?
    requires s.phoneBooks.Undefined? && s.wrapupReasons.None?
    ensures var u := User("READY", Some("1001"), Some("TRUE"));
      var t := OnEvent(s, key, newValue, Some(UserUpdate(u)));
      && t.outbox == s.outbox + [GetNotReadyReasons, GetSignoutReasons, GetPhoneBooks, GetWrapupReasons]
      && t.heartbeatArmed
  {
  }

  /** Reason catalogs are stored normalised, phone books exactly as received. */
  lemma CatalogMessagesStore(s: Session, key: string, newValue: Option<string>, items: seq<Entry>, raw: RawList)
    requires Accepted(s, key, newValue)
    ensures OnEvent(s, key, newValue, Some(NotReadyReasons(Items(items)))).notReadyReasons == Some(Normalized(items))
    ensures OnEvent(s, key, newValue, Some(SignoutReasons(Items(items)))).signoutReasons == Some(Normalized(items))
    ensures OnEvent(s, key, newValue, Some(WrapupReasons(Items(items)))).wrapupReasons == Some(Normalized(items))
    ensures OnEvent(s, key, newValue, Some(PhoneBooks(raw))).phoneBooks == raw
  {
  }

  /** With a user known, a dialog message upserts the dialog and a `end-dialog` removes it. */
  lemma DialogMessagesUpdateStore(s: Session, key: string, newValue: Option<string>, d: Dialog)
    requires Accepted(s, key, newValue) && s.currentUser.Some?
    ensures OnEvent(s, key, newValue, Some(NewDialog(d))).dialogs == Upserted(s.dialogs, d)
    ensures OnEvent(s, key, newValue, Some(DialogUpdate(d))).dialogs == Upserted(s.dialogs, d)
    ensures OnEvent(s, key, newValue, Some(EndDialog(d))).dialogs == Removed(s.dialogs, d.id)
  {
  }

  /** A new ACTIVE dialog followed by an update putting it on hold leaves one held
      dialog and no active one. */
  lemma NewThenHeld(s: Session, key: string, newValue: Option<string>)
    requires Accepted(s, key, newValue) && s.currentUser.Some? && s.dialogs == []
    ensures var leg := One(Participant(Some("1001"), Some(AgentDevice)));
      var t := OnEvent(OnEvent(s, key, newValue, Some(NewDialog(Dialog("D1", ActiveState, leg)))),
                       key, newValue, Some(DialogUpdate(Dialog("D1", "HELD", leg))));
      && t.dialogs == [Dialog("D1", "HELD", leg)]
      && ActiveDialog(t.dialogs).None?
  {
    var leg := One(Participant(Some("1001"), Some(AgentDevice)));
    var d1 := Dialog("D1", ActiveState, leg);
    assert !HasId([], "D1");
    assert Upserted([], d1) == [d1];
    assert HasId([d1], "D1") by { assert [d1][0].id == "D1"; }
  }

  // ---------------------------------------------------------------------------
  // The heartbeat

  /** Below the threshold a tick sends exactly one ping and counts it. */
  lemma TickBelowThreshold(s: Session)
    requires s.heartbeatArmed && s.missedHBCounter < MissThreshold
    ensures OnTick(s) == s.(outbox := s.outbox + [Ping], missedHBCounter := s.missedHBCounter + 1)
  {
  }

  /** At the threshold a tick sends nothing, reports `Missed-Heartbeats` once,
      resets the counter and disarms the timer. */
  lemma TickAtThreshold(s: Session)
    requires s.heartbeatArmed && s.missedHBCounter >= MissThreshold
    ensures OnTick(s) == s.(delivered := s.delivered + [ConnectionStatus(MissedHeartbeats)],
                            missedHBCounter := 0, heartbeatArmed := false)
  {
  }

  /** Ticks that stay within the threshold only ping. */
  lemma {:induction false} TicksWithinThreshold(s: Session, n: nat)
    requires s.heartbeatArmed && s.missedHBCounter + n <= MissThreshold
    ensures Ticks(s, n) == s.(outbox := s.outbox + Pings(n), missedHBCounter := s.missedHBCounter + n)
  {
    if n > 0 {
      TicksWithinThreshold(s, n - 1);
      assert s.outbox + Pings(n - 1) + [Ping] == s.outbox + Pings(n);
    }
  }

  /** From a freshly armed timer, three silent periods send three pings and the
      fourth reports the missed heartbeats, exactly once, and stops the timer. */
  lemma FourthSilentTickFires(s: Session)
    requires s.heartbeatArmed && s.missedHBCounter == 0
    ensures Ticks(s, 3).delivered == s.delivered && Ticks(s, 3).heartbeatArmed
    ensures Ticks(s, 4) == s.(outbox := s.outbox + [Ping, Ping, Ping],
                              delivered := s.delivered + [ConnectionStatus(MissedHeartbeats)],
                              heartbeatArmed := false)
  {
    TicksWithinThreshold(s, 3);
    assert Pings(3) == [Ping, Ping, Ping];
  }

  /** Any message handled between ticks, `pong` included, restarts the count: the
      next three silent periods report nothing. */
  lemma InboundMessageDefersFailure(s: Session, key: string, newValue: Option<string>, m: Msg)
    requires Accepted(s, key, newValue) && Handle(s, m).Some?
    ensures var t := OnEvent(s, key, newValue, Some(m));
      t.missedHBCounter == 0 && Ticks(t, 3).delivered == t.delivered
  {
    var t := OnEvent(s, key, newValue, Some(m));
    if t.heartbeatArmed {
      TicksWithinThreshold(t, 3);
    } else {
      TicksWhileDisarmed(t, 3);
    }
  }

  /** Without a timer no period has any effect. */
  lemma {:induction false} TicksWhileDisarmed(s: Session, n: nat)
    requires !s.heartbeatArmed
    ensures Ticks(s, n) == s
  {
    if n > 0 {
      TicksWhileDisarmed(s, n - 1);
    }
  }
}
