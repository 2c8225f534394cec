/** The toast notifier (`showToast`): the page holds `.toast` elements, normally
    at most one; showing a toast removes the first existing one and appends the
    new one at the end of the body. */
module Toasts {
  import opened Wrappers

  const DefaultKind := "success"
  const ErrorKind := "error"
  const ErrorBackground := "#ef4444"
  const SuccessBackground := "#10b981"

  /** A toast element: its class attribute, its text and its background colour. */
  datatype Toast = Toast(className: string, text: string, background: string)

  /** The `type` argument after JavaScript's default-parameter rule: an omitted
      argument means "success". */
  function EffectiveKind(kind: Option<string>): (r: string)
    ensures kind.Some? ==> r == kind.value
    ensures kind.None? ==> r == DefaultKind
  {
    kind.GetOr(DefaultKind)
  }

  /** The toast element `showToast(message, kind)` creates. */
  function MakeToast(message: string, kind: string): (t: Toast)
    ensures t.text == message
    ensures t.className == "toast toast-" + kind
    ensures t.background == ErrorBackground <==> kind == ErrorKind
    ensures t.background == ErrorBackground || t.background == SuccessBackground
  {
    Toast("toast toast-" + kind, message, if kind == ErrorKind then ErrorBackground else SuccessBackground)
  }

  /** The `.toast` elements, in document order, once t has been shown. */
  function AfterShow(shown: seq<Toast>, t: Toast): (r: seq<Toast>)
    ensures |shown| <= 1 ==> r == [t]
    ensures |r| == if shown == [] then 1 else |shown|
    ensures r[|r| - 1] == t
    ensures shown != [] ==> r[..|r| - 1] == shown[1..]
  {
    (if shown == [] then [] else shown[1..]) + [t]
  }

  /** The toasts currently on the page. */
  class ToastSlot {
    var shown: seq<Toast>

    constructor ()
      ensures shown == []
    {
      shown := [];
    }

    /** showToast(message, kind), where `kind == None` is the call without a type. */
    method Show(message: string, kind: Option<string>)
      modifies this
      ensures shown == AfterShow(old(shown), MakeToast(message, EffectiveKind(kind)))
      ensures |old(shown)| <= 1 ==> |shown| == 1
    {
      if shown != [] {
        shown := shown[1..];
      }
      shown := shown + [MakeToast(message, EffectiveKind(kind))];
    }
  }
}
