/**
 * The values exchanged between the control application and the Finesse gadget:
 * the user, dialog and participant records, the catalog payloads, and the
 * inbound and outbound messages. Only the fields that the client inspects are
 * kept; every other field of these records is opaque to it.
 */
module Messages {
  import opened Wrappers

  /** Storage key on which the gadget publishes messages for this client. */
  const InboundKey := "messageFromFinesse"
  /** Storage key on which this client publishes its requests. */
  const OutboundKey := "messageToFinesse"

  const LogoutState := "LOGOUT"
  const ActiveState := "ACTIVE"
  const AgentDevice := "AGENT_DEVICE"
  const Connected := "Connected"
  const MissedHeartbeats := "Missed-Heartbeats"

  /** Number of unanswered pings tolerated before the liveness failure is reported. */
  const MissThreshold: nat := 3

  /** The agent: its state, its extension (the device used to find its call leg)
      and the wrap-up mode found in its settings. */
  datatype User = User(state: string, extension: Option<string>, wrapUpOnIncoming: Option<string>)

  /** One leg of a call; either field may be absent from the record. */
  datatype Participant = Participant(mediaAddress: Option<string>, mediaAddressType: Option<string>)

  /** The `participants.Participant` field of a dialog: one record or an array of them. */
  datatype Participants = One(participant: Participant) | Many(list: seq<Participant>)

  datatype Dialog = Dialog(id: string, state: string, participants: Participants)

  /** An opaque catalog record (a reason code or a phone book). */
  datatype Record = Record(fields: map<string, string>)

  /** A catalog element; `None` is a JSON null. */
  type Entry = Option<Record>

  /** A catalog field of an inbound message as it arrives: absent, null, or an array. */
  datatype RawList = Undefined | Null | Items(items: seq<Entry>)

  /** A decoded inbound message, one constructor per `messageType` the client
      distinguishes; `Unknown` carries any other type, which is forwarded as is. */
  datatype Msg =
    | ConnectionStatus(connectionStatus: string)
    | UserUpdate(user: User)
    | NewDialog(dialog: Dialog)
    | DialogUpdate(dialog: Dialog)
    | EndDialog(dialog: Dialog)
    | NotReadyReasons(notReadyReasons: RawList)
    | SignoutReasons(signoutReasons: RawList)
    | WrapupReasons(wrapupReasons: RawList)
    | PhoneBooks(phoneBooks: RawList)
    | ApiError
    | DesktopStatus
    | Pong
    | Unknown(messageType: string)

  /** Call controls that act on a dialog and need nothing but its id. */
  datatype CallAction = Answer | Drop | Hold | Retrieve | Conference | Transfer

  /** Dialog requests that also carry a mandatory argument. */
  datatype DialogRequest = ConsultCall | TransferSst | UpdateCallData | UpdateWrapUpReason

  /** An outbound message, reduced to its type and the dialog it targets
      (time stamps and request arguments are not modelled). */
  datatype OutMsg =
    | GetUser
    | GetDialogs
    | GetNotReadyReasons
    | GetSignoutReasons
    | GetPhoneBooks
    | GetWrapupReasons
    | Ping
    | DialogAction(action: CallAction, dialogId: string)
    | DialogRequestFor(request: DialogRequest, dialogId: string)
}
