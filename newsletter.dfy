/**
 * The newsletter form's submit handler, bound by `initNewsletterForm`: it
 * trims the input, tests it (module Email) and reports through a toast.
 */
module Newsletter {
  import opened Email
  import opened Toasts

  const InvalidMessage: string := "\U{26A0}\U{FE0F} Please enter a valid email address."
  const SuccessMessage: string := "\U{1F389} Subscribed! Welcome to LOL Club updates."

  /** What one submission does: the toast it shows, the input's value after
      it, and whether focus returns to the input. */
  datatype Feedback = Feedback(kind: Kind, message: string, value: string, refocus: bool)

  /** The outcome of submitting `value`: an info toast and a cleared input for
      an address the pattern matches after trimming, otherwise an error toast,
      refocus, and the input left exactly as typed. */
  function SubmitFeedback(value: string): (f: Feedback)
    ensures f.kind == Info <==> MatchesPattern(Trim(value))
    ensures f.kind == Info ==> f.message == SuccessMessage && f.value == "" && !f.refocus
    ensures f.kind == Error ==> f.message == InvalidMessage && f.value == value && f.refocus
  {
    AcceptsIffPattern(value);
    if Accepts(value) then Feedback(Info, SuccessMessage, "", false)
    else Feedback(Error, InvalidMessage, value, true)
  }

  lemma SubmitExamples()
    ensures SubmitFeedback("a@b.co").kind == Info
    ensures SubmitFeedback(" a@b.co ") == Feedback(Info, SuccessMessage, "", false)
    ensures SubmitFeedback("a@b") == Feedback(Error, InvalidMessage, "a@b", true)
    ensures SubmitFeedback("a @b.co").kind == Error
  {
    AcceptsPlain();
    AcceptsPadded();
    RejectsNoDot();
    RejectsSpaceInLocalPart();
  }

  class NewsletterForm {
    /** `input.value` of `#footer-email-input`. */
    var value: string
    /** Whether the input holds focus. */
    var focused: bool
    /** The document body that shows toasts. */
    const host: ToastHost

    constructor (host: ToastHost, value: string)
      ensures this.host == host && this.value == value && !focused
    {
      this.host := host;
      this.value := value;
      focused := false;
    }

    /** The `submit` listener (the default action is prevented). */
    method Submit()
      requires host.Valid()
      modifies this, host
      ensures host.Valid()
      ensures var f := SubmitFeedback(old(value));
        && value == f.value
        && focused == (f.refocus || old(focused))
        && host.toast.Some?
        && host.toast.value.message == f.message
        && host.toast.value.kind == f.kind
        && host.toast.value.phase == Entering
    {
      var email := Trim(value);
      assert SubmitFeedback(value).kind == Info <==> email != [] && IsValidEmail(email);
      if !(email != [] && IsValidEmail(email)) {
        var _ := host.Show(InvalidMessage, Error);
        focused := true;
        return;
      }
      var _ := host.Show(SuccessMessage, Info);
      value := "";
    }
  }
}
