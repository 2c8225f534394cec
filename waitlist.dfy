/** The waitlist form's submit handler. The handler suspends once, at the
    `await` of the network request; the model splits it there: Submit runs up to
    the request and returns it, Settle runs once the transport has answered, and
    HandleSubmit is the two together. The transport's answer is an input. */
module Waitlist {
  import opened Wrappers
  import Email
  import Toasts
  import opened Page

  const InvalidEmailMessage := "Please enter a valid email address"
  const NoPaymentTypeMessage := "Please select at least one payment type"
  const SuccessMessage := "Success! Redirecting to pricing..."
  const FailureMessage := "Something went wrong. Please try again."
  const SubmittingText := "Submitting..."
  const FrenchLanguage := "fr"
  const FrenchPricingPage := "pricing-fr.html"
  const PricingPage := "pricing.html"
  const WaitlistFormType := "waitlist"

  /** The fields the user filled in (`FormData.get` gives `null`, here None, for
      a field the form does not send). */
  datatype FormFields = FormFields(
    email: string,
    industry: Option<string>,
    invoiceVolume: Option<string>,
    paymentTypes: seq<string>)

  /** The data posted to the form backend. */
  datatype Submission = Submission(
    email: string,
    industry: Option<string>,
    invoiceVolume: Option<string>,
    paymentTypes: seq<string>,
    language: string,
    formType: string)

  /** What the transport reports: a response with `ok` set, a response without
      it, or a rejected request. */
  datatype Outcome = Ok | NotOk | Rejected

  /** A request in flight, with the button text saved before it was sent. */
  datatype Pending = Pending(submission: Submission, savedText: string)

  /** The page to go to after a successful submission. */
  function PricingPageFor(language: string): (r: string)
    ensures r == FrenchPricingPage <==> language == FrenchLanguage
    ensures r == FrenchPricingPage || r == PricingPage
  {
    if language == FrenchLanguage then FrenchPricingPage else PricingPage
  }

  /** The message of the first failed check, or None when the form may be sent;
      the email is checked before the payment types. */
  function ValidationError(form: FormFields): (r: Option<string>)
    ensures !Email.IsValidEmail(form.email) ==> r == Some(InvalidEmailMessage)
    ensures Email.IsValidEmail(form.email) && form.paymentTypes == [] ==> r == Some(NoPaymentTypeMessage)
    ensures r.None? <==> Email.IsValidEmail(form.email) && form.paymentTypes != []
  {
    if !Email.IsValidEmail(form.email) then Some(InvalidEmailMessage)
    else if |form.paymentTypes| == 0 then Some(NoPaymentTypeMessage)
    else None
  }

  /** The data sent for a form, tagged with the language and the form type. */
  function SubmissionFor(form: FormFields, pageLang: string): (r: Submission)
    ensures r.email == form.email && r.paymentTypes == form.paymentTypes
    ensures r.industry == form.industry && r.invoiceVolume == form.invoiceVolume
    ensures r.language == Language(pageLang)
    ensures r.formType == WaitlistFormType
  {
    Submission(form.email, form.industry, form.invoiceVolume, form.paymentTypes,
               Language(pageLang), WaitlistFormType)
  }

  /** The waitlist form's submit button. */
  class Button {
    var text: string
    var disabled: bool

    constructor (text: string, disabled: bool)
      ensures this.text == text && this.disabled == disabled
    {
      this.text := text;
      this.disabled := disabled;
    }
  }

  /** The page holding the waitlist form: its language attribute, the submit
      button, the toasts, local storage and the redirect the handler schedules. */
  class WaitlistPage {
    const lang: string
    const button: Button
    const toasts: Toasts.ToastSlot
    var storage: map<string, string>
    var redirect: Option<string>

    constructor (lang: string, button: Button, toasts: Toasts.ToastSlot, storage: map<string, string>)
      ensures this.lang == lang && this.button == button && this.toasts == toasts
      ensures this.storage == storage && redirect == None
    {
      this.lang := lang;
      this.button := button;
      this.toasts := toasts;
      this.storage := storage;
      redirect := None;
    }

    /** The handler up to the request. A form that fails a check gets an error
        toast and no request, and neither the button nor storage changes;
        otherwise the button is switched to "Submitting..." and disabled, and
        the request to send is returned with the text it had. */
    method Submit(form: FormFields) returns (pending: Option<Pending>)
      modifies button, toasts
      ensures pending.None? <==> ValidationError(form).Some?
      ensures ValidationError(form).Some? ==>
        && toasts.shown == Toasts.AfterShow(old(toasts.shown),
                             Toasts.MakeToast(ValidationError(form).value, Toasts.ErrorKind))
        && button.text == old(button.text) && button.disabled == old(button.disabled)
      ensures pending.Some? ==>
        && pending.value == Pending(SubmissionFor(form, lang), old(button.text))
        && button.text == SubmittingText && button.disabled
        && toasts.shown == old(toasts.shown)
    {
      var error := ValidationError(form);
      if error.Some? {
        toasts.Show(error.value, Some(Toasts.ErrorKind));
        return None;
      }
      var submission := SubmissionFor(form, lang);
      var savedText := button.text;
      button.text := SubmittingText;
      button.disabled := true;
      pending := Some(Pending(submission, savedText));
    }

    /** The handler after the transport has answered. On `ok` it stores the
        email and the language and schedules the redirect; otherwise it shows
        the error toast and changes neither. Either way the button gets its
        saved text back and is enabled. */
    method Settle(p: Pending, outcome: Outcome)
      modifies this, button, toasts
      ensures button.text == p.savedText && !button.disabled
      ensures outcome.Ok? ==>
        && storage == old(storage)[EmailKey := p.submission.email][LocaleKey := p.submission.language]
        && redirect == Some(PricingPageFor(p.submission.language))
        && toasts.shown == Toasts.AfterShow(old(toasts.shown), Toasts.MakeToast(SuccessMessage, Toasts.DefaultKind))
      ensures !outcome.Ok? ==>
        && storage == old(storage) && redirect == old(redirect)
        && toasts.shown == Toasts.AfterShow(old(toasts.shown), Toasts.MakeToast(FailureMessage, Toasts.ErrorKind))
    {
      if outcome.Ok? {
        storage := storage[EmailKey := p.submission.email];
        storage := storage[LocaleKey := p.submission.language];
        var page := PricingPageFor(p.submission.language);
        toasts.Show(SuccessMessage, None);
        redirect := Some(page);
      } else {
        toasts.Show(FailureMessage, Some(Toasts.ErrorKind));
      }
      button.text := p.savedText;
      button.disabled := false;
    }

    /** The whole handler, the transport answering with `outcome`. When a request
        was sent, the button ends with the text it had before and enabled,
        whatever the outcome. */
    method HandleSubmit(form: FormFields, outcome: Outcome) returns (sent: Option<Submission>)
      modifies this, button, toasts
      ensures sent.None? <==> ValidationError(form).Some?
      ensures sent.None? ==>
        && toasts.shown == Toasts.AfterShow(old(toasts.shown),
                             Toasts.MakeToast(ValidationError(form).value, Toasts.ErrorKind))
        && button.text == old(button.text) && button.disabled == old(button.disabled)
        && storage == old(storage) && redirect == old(redirect)
      ensures sent.Some? ==>
        && sent.value == SubmissionFor(form, lang)
        && button.text == old(button.text) && !button.disabled
      ensures sent.Some? && outcome.Ok? ==>
        && storage == old(storage)[EmailKey := form.email][LocaleKey := Language(lang)]
        && redirect == Some(PricingPageFor(Language(lang)))
        && toasts.shown == Toasts.AfterShow(old(toasts.shown), Toasts.MakeToast(SuccessMessage, Toasts.DefaultKind))
      ensures sent.Some? && !outcome.Ok? ==>
        && storage == old(storage) && redirect == old(redirect)
        && toasts.shown == Toasts.AfterShow(old(toasts.shown), Toasts.MakeToast(FailureMessage, Toasts.ErrorKind))
    {
      var pending := Submit(form);
      if pending.None? {
        return None;
      }
      Settle(pending.value, outcome);
      sent := Some(pending.value.submission);
    }
  }
}
