# Landing-page behaviour of syncpay.ca, modelled in Dafny

This project models the decision logic of the landing page's `script.js`: the
email check, the FAQ accordion, the waitlist form's submit handler, the single
toast slot and the configuration of the payment provider's buy buttons. The
browser is replaced by plain state: the FAQ items are an array of "active"
flags, the toasts on the page a sequence, local storage a map, the submit button
an object with a text and a disabled flag, each buy button a map of attributes.
The network request is not made; its outcome (`ok`, not `ok`, rejected) is an
input.

Modules, one per part of the script (all in `script.js`):

- `Email` (`email.dfy`): `isValidEmail` as the predicate "the string is
  L@D.T with L, D, T non-empty and free of '@' and whitespace", with `\s` written
  out as the ECMAScript WhiteSpace and LineTerminator characters, proved
  equivalent to "exactly one '@', no whitespace, a '.' after the '@' with
  characters on both sides".
- `Accordion` (`accordion.dfy`): the click handler as a class over an
  `array<bool>`, with a loop clearing every flag before the clicked one is set,
  specified by the function `Clicked`.
- `Toasts` (`toasts.dfy`): `showToast` as a class holding the page's `.toast`
  elements; a call removes the first and appends the new one.
- `Page` (`page.dfy`): the page language (`lang || 'en'`) and the two storage keys.
- `Waitlist` (`waitlist.dfy`): the submit handler, split at its `await` into
  `Submit` (checks, saving and switching the button, the request to send) and
  `Settle` (what happens on each outcome, restoring the button), and
  `HandleSubmit`, the two in sequence.
- `BuyButtons` (`buybuttons.dfy`): `configureStripeBuyButtons` as a loop over an
  array of attribute maps, with `String.prototype.trim` written out.
- `Wrappers` (`wrappers.dfy`): an `Option` type for JavaScript's `null` and
  omitted arguments.

The `finally` block sets `disabled` to `false` rather than to the value it had
before the submission; the model does the same. Since a disabled button cannot
submit the form, the value before was `false`, so the button ends as it began.

## Model

| member | source | states |
|---|---|---|
| Email.ValidEmailIffSimple | script.js:149-152 | the email pattern accepts a string exactly when it has one '@', no whitespace, and a '.' after the '@' with a character before the '@' and characters on both sides of the '.' |
| Email.AcceptsParts | script.js:149-152 | every L + "@" + D + "." + T with non-empty L, D, T free of '@' and whitespace is accepted |
| Email.PartsOfValid | script.js:149-152 | every accepted string splits as L + "@" + D + "." + T with such L, D, T |
| Email.RejectsWithoutAt | script.js:149-152 | a string without '@' is rejected |
| Email.RejectsWithoutDotAfterAt | script.js:149-152 | a string with an '@' followed by no '.' is rejected, whatever else it holds |
| Accordion.Clicked | script.js:32-44 | after a click on item i: if i was expanded none is, otherwise exactly i is |
| Accordion.ClickLeavesAtMostOne | script.js:32-44 | from any state a click leaves at most one item expanded |
| Accordion.ClickTwiceCloses | script.js:32-44 | clicking a collapsed item twice leaves every item collapsed |
| Accordion.ClickOtherSwitches | script.js:32-44 | clicking item a and then another item b leaves exactly b expanded |
| Accordion.Faq.constructor | script.js:26-31 | the items are those of the page with whether each has a question (only those get a handler); none starts expanded |
| Accordion.Faq.Click | script.js:28-46 | the loop clears every flag, then the clicked item is set unless it was set before: the new flags are `Clicked` of the old ones, and at most one is set |
| Toasts.EffectiveKind | script.js:155 | an omitted toast type means "success", a given one is used as is |
| Toasts.MakeToast | script.js:162-173 | the new toast has the message as text, class "toast toast-" + type, and the error colour exactly when the type is "error" |
| Toasts.AfterShow | script.js:156-213 | the new toast is last, the first old toast is gone and the others stay; from at most one toast the page ends with exactly the new one |
| Toasts.ToastSlot.Show | script.js:155-213 | showToast removes the first existing toast and appends the new one; at most one before means exactly one after |
| Page.Language | script.js:67 | the language is the page's lang attribute, or "en" when that is empty; it is never empty |
| Waitlist.PricingPageFor | script.js:123 | the redirect target is "pricing-fr.html" exactly when the language is "fr", otherwise "pricing.html" |
| Waitlist.ValidationError | script.js:84-94 | an invalid email is reported first, whatever the payment types; a valid email with no payment type gets the payment-type message; a form passes exactly when both checks pass |
| Waitlist.SubmissionFor | script.js:64-82 | the data sent carries the form's fields, the page language and the form type "waitlist" |
| Waitlist.WaitlistPage.Submit | script.js:60-103 | a form failing a check gets that check's error toast and no request, with button and storage unchanged; otherwise the request is issued and, while it is pending, the button reads "Submitting..." and is disabled |
| Waitlist.WaitlistPage.Settle | script.js:106-140 | on ok, storage maps customerEmail to the email and customerLocale to the language, the success toast shows and the redirect goes to the language's pricing page; otherwise storage and redirect are unchanged and the error toast shows; on every outcome the button text is restored and it is enabled |
| Waitlist.WaitlistPage.HandleSubmit | script.js:60-141 | the whole handler: no request and nothing but a toast changed for a form failing a check; once a request is issued, the button ends with its earlier text and enabled on every outcome, with storage and toast as in Settle |
| BuyButtons.Lookup | script.js:231-234 | a stored key gives its value, a missing one gives nothing |
| BuyButtons.TrimStart | script.js:243 | the result is a suffix of the input, what was dropped is whitespace and it does not begin with whitespace |
| BuyButtons.TrimEnd | script.js:243 | the result is a prefix of the input, what was dropped is whitespace and it does not end with whitespace |
| BuyButtons.Trim | script.js:243 | a string trims to "" exactly when all its characters are whitespace |
| BuyButtons.ChooseLocale | script.js:233-236 | the locale is the stored one if non-empty, else the page language if non-empty, else "en"; it is never empty |
| BuyButtons.EmailToSet | script.js:243 | the stored email is set exactly when it is present and not blank after trimming |
| BuyButtons.Configured | script.js:241-252 | each button gets the locale; it gets the email to set when there is one, otherwise its customer-email attribute is left as it was; no other attribute is changed or added |
| BuyButtons.ConfigureBuyButtons | script.js:229-253 | the loop leaves every buy button configured with the chosen locale and, when it is present and not blank, the stored email |
| BuyButtons.StoredPreferenceApplies | script.js:231-250 | after the storage writes of a successful waitlist submission, every buy button gets the submitted language as locale and the submitted email as customer email |

## Left out

- Scroll reveal (script.js:4-21): it rests on the browser's intersection observer and viewport geometry.
- The request itself (script.js:107-113): the multipart body, the endpoint and the headers; the transport's answer is an input, and the timestamp of the request is not modelled.
- Timers: the toast's 4000 ms dismissal and 300 ms exit transition, the 1500 ms delay before the redirect (the model records the page the redirect goes to) and the 100 ms delay and `readyState` branch before the configurator runs; navigation itself is not modelled.
- The inline styles and the injected keyframes of a toast, apart from the choice between the error and the success colour.
- Console logging.
- A second submission while a request is pending: the handler does not guard against it, and the model claims nothing about interleaved submissions.
- Waitlist.WaitlistPage.Submit: the email is a string; a form without an email field, where `FormData.get` gives `null` and the check fails on the text "null", is not modelled.
- Waitlist.WaitlistPage.Settle: a `localStorage.setItem` that throws (storage full or disabled) is not modelled.
- The hero form is not part of this model: it does not appear in the script.
- Characters are Unicode scalar values rather than UTF-16 code units; every `\s` character lies in the Basic Multilingual Plane, so this changes no answer of the email check or of trim.
