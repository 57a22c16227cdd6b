/**
 * The choice of the dialog a call control or dialog request acts on: an
 * explicit `options.dialogId`, otherwise the selected dialog, otherwise the
 * ACTIVE dialog of the store. An absent result means that nothing is sent.
 */
module Targets {
  import opened Wrappers
  import opened Messages
  import opened DialogStore

  /** The `options` argument of a dialog command; the last three fields are the
      mandatory argument of a consult call or single-step transfer, a call-data
      update and a wrap-up-reason update respectively. */
  datatype ActionOptions = ActionOptions(
    dialogId: Option<string>,
    numberToDial: Option<string>,
    callVariables: Option<seq<Record>>,
    wrapupReason: Option<string>)

  /** The selected dialog if one is set, else the ACTIVE dialog of the store. */
  function SelectedOrActive(selected: Option<Dialog>, ds: seq<Dialog>): (r: Option<Dialog>)
    ensures selected.Some? ==> r == selected
    ensures selected.None? ==> r == ActiveDialog(ds)
    ensures selected.None? && r.Some? ==> r.value in ds && r.value.state == ActiveState
    ensures selected.None? && r.Some? ==>
      exists i :: 0 <= i < |ds| && ds[i] == r.value && forall j :: i < j < |ds| ==> ds[j].state != ActiveState
    ensures r.None? <==> selected.None? && forall i :: 0 <= i < |ds| ==> ds[i].state != ActiveState
  {
    if selected.None? then ActiveDialog(ds) else selected
  }

  /** Target of answer, drop, hold, retrieve, conference and transfer: without
      `options` the fallback applies; with `options` only its `dialogId` is used. */
  function CallTarget(opts: Option<ActionOptions>, selected: Option<Dialog>, ds: seq<Dialog>): (r: Option<Dialog>)
    ensures opts.None? ==> r == SelectedOrActive(selected, ds)
    ensures opts.Some? && opts.value.dialogId.None? ==> r.None?
    ensures opts.Some? && r.Some? ==> r.value in ds && Some(r.value.id) == opts.value.dialogId
    ensures opts.Some? && opts.value.dialogId.Some? ==>
      (r.None? <==> !HasId(ds, opts.value.dialogId.value))
    ensures opts.Some? && opts.value.dialogId.Some? ==> r == DialogWithId(ds, opts.value.dialogId.value)
  {
    match opts
    case None => SelectedOrActive(selected, ds)
    case Some(o) =>
      if o.dialogId.Some? then DialogWithId(ds, o.dialogId.value) else None
  }

  /** Whether `o` carries the argument `request` cannot do without. */
  predicate HasArgument(request: DialogRequest, o: ActionOptions)
  {
    match request
    case ConsultCall => o.numberToDial.Some?
    case TransferSst => o.numberToDial.Some?
    case UpdateCallData => o.callVariables.Some?
    case UpdateWrapUpReason => o.wrapupReason.Some?
  }

  /** Target of a consult call, single-step transfer, call-data or wrap-up-reason
      update: `options` and its argument are mandatory; without `dialogId` the
      fallback applies. */
  function RequestTarget(request: DialogRequest, opts: Option<ActionOptions>, selected: Option<Dialog>, ds: seq<Dialog>): (r: Option<Dialog>)
    ensures opts.None? ==> r.None?
    ensures opts.Some? && !HasArgument(request, opts.value) ==> r.None?
    ensures opts.Some? && HasArgument(request, opts.value) && opts.value.dialogId.None? ==>
      r == SelectedOrActive(selected, ds)
    ensures opts.Some? && opts.value.dialogId.Some? && r.Some? ==>
      r.value in ds && r.value.id == opts.value.dialogId.value
    ensures opts.Some? && HasArgument(request, opts.value) && opts.value.dialogId.Some? ==>
      r == DialogWithId(ds, opts.value.dialogId.value)
  {
    match opts
    case None => None
    case Some(o) =>
      if !HasArgument(request, o) then None
      else if o.dialogId.Some? then DialogWithId(ds, o.dialogId.value)
      else SelectedOrActive(selected, ds)
  }

  /** With an explicit id, a call control acts on the stored dialog with that id,
      whatever is selected, and on nothing when no such dialog is stored. */
  lemma ExplicitIdIgnoresSelection(o: ActionOptions, selected: Option<Dialog>, ds: seq<Dialog>)
    requires o.dialogId.Some?
    ensures CallTarget(Some(o), selected, ds) == CallTarget(Some(o), None, ds)
    ensures CallTarget(Some(o), selected, ds).None? <==> !HasId(ds, o.dialogId.value)
  {
  }

  /** With an explicit id and its argument, a dialog request picks the same dialog
      as a call control. */
  lemma ExplicitIdSameForBothKinds(request: DialogRequest, o: ActionOptions, selected: Option<Dialog>, ds: seq<Dialog>)
    requires o.dialogId.Some? && HasArgument(request, o)
    ensures RequestTarget(request, Some(o), selected, ds) == CallTarget(Some(o), selected, ds)
  {
  }

  /** The two kinds of command differ exactly on options without a dialog id:
      a call control sends nothing, a dialog request falls back. */
  lemma OptionsWithoutIdDiffer(request: DialogRequest, o: ActionOptions, selected: Option<Dialog>, ds: seq<Dialog>)
    requires o.dialogId.None? && HasArgument(request, o)
    ensures CallTarget(Some(o), selected, ds).None?
    ensures RequestTarget(request, Some(o), selected, ds) == CallTarget(None, selected, ds)
  {
  }

  /** The selected dialog is used even when the store no longer holds it. */
  lemma SelectionIsNotValidated(d: Dialog, ds: seq<Dialog>)
    requires d !in ds
    ensures CallTarget(None, Some(d), ds) == Some(d)
  {
  }
}
