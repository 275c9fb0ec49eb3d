/**
 * The toast utility `showToast`: the body holds at most one element with id
 * `lol-toast`. A new toast removes the old one at once; each toast's own
 * animation frames and timers only ever touch that toast's element.
 */
module Toasts {
  import opened Wrappers

  /** `type === 'error'` selects the error styling; anything else is info. */
  datatype Kind = Info | Error

  /** Entering: appended with opacity 0. Visible: after the second animation
      frame. Leaving: after the 3000 ms dwell, faded out. */
  datatype Phase = Entering | Visible | Leaving

  /** `id` tells element objects apart: a removed toast may still receive its
      pending callbacks, which then act on a detached element. */
  datatype Toast = Toast(id: nat, message: string, kind: Kind, phase: Phase)

  /** True when `current` is the element whose identity is `id`, i.e. that
      element is still attached to the body. */
  predicate IsAttached(current: Option<Toast>, id: nat) {
    current.Some? && current.value.id == id
  }

  class ToastHost {
    /** The element with id `lol-toast` under the body, if any. */
    var toast: Option<Toast>
    /** Identity of the next element `showToast` creates. */
    var nextId: nat

    ghost predicate Valid()
      reads this
    {
      toast.Some? ==> toast.value.id < nextId
    }

    constructor ()
      ensures Valid() && toast == None
    {
      toast := None;
      nextId := 0;
    }

    /** `showToast(message, kind)`: the existing toast, if any, is removed,
        then a new element holding `message` is appended. */
    method Show(message: string, kind: Kind) returns (id: nat)
      requires Valid()
      modifies this
      ensures Valid()
      ensures toast == Some(Toast(id, message, kind, Entering))
      ensures id == old(nextId) && nextId == old(nextId) + 1
      ensures old(toast).Some? ==> old(toast).value.id != id
    {
      if toast.Some? {
        toast := None;
      }
      id := nextId;
      nextId := nextId + 1;
      toast := Some(Toast(id, message, kind, Entering));
    }

    /** The second `requestAnimationFrame` callback of toast `id`. */
    method Settle(id: nat)
      requires Valid()
      modifies this
      ensures Valid() && nextId == old(nextId)
      ensures IsAttached(old(toast), id) ==> toast == Some(old(toast).value.(phase := Visible))
      ensures !IsAttached(old(toast), id) ==> toast == old(toast)
    {
      if IsAttached(toast, id) {
        toast := Some(toast.value.(phase := Visible));
      }
    }

    /** The 3000 ms dwell timer of toast `id`: it fades out. */
    method Dismiss(id: nat)
      requires Valid()
      modifies this
      ensures Valid() && nextId == old(nextId)
      ensures IsAttached(old(toast), id) ==> toast == Some(old(toast).value.(phase := Leaving))
      ensures !IsAttached(old(toast), id) ==> toast == old(toast)
    {
      if IsAttached(toast, id) {
        toast := Some(toast.value.(phase := Leaving));
      }
    }

    /** The 400 ms exit timer of toast `id`: `if (toast.parentNode) toast.remove()`. */
    method Remove(id: nat)
      requires Valid()
      modifies this
      ensures Valid() && nextId == old(nextId)
      ensures IsAttached(old(toast), id) ==> toast == None
      ensures !IsAttached(old(toast), id) ==> toast == old(toast)
    {
      if IsAttached(toast, id) {
        toast := None;
      }
    }
  }

  /** A second toast shown while the first is pending: the first one's
      callbacks, run here in their own order (frame, dwell, exit), leave the
      second untouched, still entering. Any other order ends the same way,
      because each callback's contract leaves a toast that is not its own
      unchanged. */
  method ReplacedToastCannotInterfere(host: ToastHost, m1: string, m2: string) returns (second: nat)
    requires host.Valid()
    modifies host
    ensures host.Valid() && second == old(host.nextId) + 1
    ensures host.toast == Some(Toast(second, m2, Error, Entering))
  {
    var first := host.Show(m1, Info);
    second := host.Show(m2, Error);
    host.Settle(first);
    host.Dismiss(first);
    host.Remove(first);
  }
}
