/**
 * Finding the agent's own leg of a call: the first participant whose media
 * address type is the agent-device tag and whose media address is the user's
 * (defined) extension.
 */
module ParticipantResolver {
  import opened Wrappers
  import opened Messages

  /** `p` is the leg on the agent's device `extension`; an undefined extension matches nothing. */
  predicate IsAgentLeg(p: Participant, extension: Option<string>)
  {
    extension.Some? && p.mediaAddress == extension && p.mediaAddressType == Some(AgentDevice)
  }

  /** Index of the first agent leg in `ps`, or `|ps|` when there is none. */
  function AgentLegIndex(ps: seq<Participant>, extension: Option<string>): (k: nat)
    ensures k <= |ps|
    ensures k < |ps| ==> IsAgentLeg(ps[k], extension)
    ensures forall j :: 0 <= j < k ==> !IsAgentLeg(ps[j], extension)
  {
    if ps == [] then 0
    else if IsAgentLeg(ps[0], extension) then 0
    else 1 + AgentLegIndex(ps[1..], extension)
  }

  /** The participants a dialog lists, a single record being a list of one. */
  function Candidates(ps: Participants): seq<Participant>
  {
    match ps
    case One(p) => [p]
    case Many(list) => list
  }

  /** The agent's participant in `dialog` for the known `user`. */
  function MyParticipant(dialog: Dialog, user: User): (r: Option<Participant>)
    ensures user.extension.None? ==> r.None?
    ensures r.Some? ==> IsAgentLeg(r.value, user.extension)
    ensures r.None? <==>
      forall i :: 0 <= i < |Candidates(dialog.participants)| ==>
        !IsAgentLeg(Candidates(dialog.participants)[i], user.extension)
    ensures r.Some? ==>
      exists k :: 0 <= k < |Candidates(dialog.participants)| &&
        Candidates(dialog.participants)[k] == r.value &&
        forall j :: 0 <= j < k ==> !IsAgentLeg(Candidates(dialog.participants)[j], user.extension)
  {
    match dialog.participants
    case Many(list) =>
      assert Candidates(dialog.participants) == list;
      var k := AgentLegIndex(list, user.extension);
      if k < |list| then Some(list[k]) else None
    case One(p) =>
      assert Candidates(dialog.participants)[0] == p;
      if IsAgentLeg(p, user.extension) then Some(p) else None
  }

  /** A single participant is resolved exactly as a one-element array holding it. */
  lemma SingleIsListOfOne(d: Dialog, p: Participant, user: User)
    requires d.participants == One(p)
    ensures MyParticipant(d, user) == MyParticipant(d.(participants := Many([p])), user)
  {
  }

  /** Legs listed after the agent's leg never change the result: the scan stops at the first match. */
  lemma {:induction false} LaterLegsIgnored(ps: seq<Participant>, qs: seq<Participant>, extension: Option<string>)
    requires AgentLegIndex(ps, extension) < |ps|
    ensures AgentLegIndex(ps + qs, extension) == AgentLegIndex(ps, extension)
  {
    if !IsAgentLeg(ps[0], extension) {
      assert (ps + qs)[1..] == ps[1..] + qs;
      LaterLegsIgnored(ps[1..], qs, extension);
    }
  }
}
