/** The configurator of the payment provider's buy buttons
    (`configureStripeBuyButtons`): it reads the stored email and locale and sets
    them as attributes on every `stripe-buy-button` element. */
module BuyButtons {
  import opened Wrappers
  import Email
  import opened Page

  const EmailAttribute := "customer-email"
  const LocaleAttribute := "locale"

  /** The attributes of one element. */
  type Attributes = map<string, string>

  /** localStorage.getItem: None for a missing key. */
  function Lookup(storage: map<string, string>, key: string): (r: Option<string>)
    ensures r.Some? <==> key in storage
    ensures r.Some? ==> r.value == storage[key]
  {
    if key in storage then Some(storage[key]) else None
  }

  /** s without its leading whitespace. */
  function TrimStart(s: string): (r: string)
    ensures |r| <= |s| && r == s[|s| - |r|..]
    ensures r != [] ==> !Email.IsWhitespace(r[0])
    ensures forall k :: 0 <= k < |s| - |r| ==> Email.IsWhitespace(s[k])
    ensures r == [] <==> forall k :: 0 <= k < |s| ==> Email.IsWhitespace(s[k])
  {
    if s != [] && Email.IsWhitespace(s[0]) then TrimStart(s[1..]) else s
  }

  /** s without its trailing whitespace. */
  function TrimEnd(s: string): (r: string)
    ensures |r| <= |s| && r == s[..|r|]
    ensures r != [] ==> !Email.IsWhitespace(r[|r| - 1])
    ensures forall k :: |r| <= k < |s| ==> Email.IsWhitespace(s[k])
    ensures r == [] <==> forall k :: 0 <= k < |s| ==> Email.IsWhitespace(s[k])
  {
    if s != [] && Email.IsWhitespace(s[|s| - 1]) then TrimEnd(s[..|s| - 1]) else s
  }

  /** String.prototype.trim; it gives "" exactly for an all-whitespace string. */
  function Trim(s: string): (r: string)
    ensures r == "" <==> forall k :: 0 <= k < |s| ==> Email.IsWhitespace(s[k])
  {
    TrimEnd(TrimStart(s))
  }

  /** `customerEmail && customerEmail.trim() !== ''`: a stored email that is
      present and not blank. */
  predicate HasEmail(stored: Option<string>) {
    stored.Some? && Trim(stored.value) != ""
  }

  /** `storedLocale || pageLanguage`: the stored locale unless it is missing or
      empty, then the page language, then "en". */
  function ChooseLocale(stored: Option<string>, pageLang: string): (r: string)
    ensures r != ""
    ensures stored.Some? && stored.value != "" ==> r == stored.value
    ensures !(stored.Some? && stored.value != "") && pageLang != "" ==> r == pageLang
    ensures !(stored.Some? && stored.value != "") && pageLang == "" ==> r == DefaultLanguage
  {
    if stored.Some? && stored.value != "" then stored.value else Language(pageLang)
  }

  /** The email to set on the buttons: the stored one when it is present and
      not blank, otherwise none. */
  function EmailToSet(stored: Option<string>): (r: Option<string>)
    ensures r.Some? <==> HasEmail(stored)
    ensures r.Some? ==> r == stored
  {
    if HasEmail(stored) then stored else None
  }

  /** One button's attributes after configuration: `email` is set as the
      customer email when there is one, and the locale is set in any case. */
  function Configured(attrs: Attributes, locale: string, email: Option<string>): (r: Attributes)
    ensures LocaleAttribute in r && r[LocaleAttribute] == locale
    ensures EmailAttribute in r <==> email.Some? || EmailAttribute in attrs
    ensures email.Some? ==> r[EmailAttribute] == email.value
    ensures email.None? && EmailAttribute in attrs ==> r[EmailAttribute] == attrs[EmailAttribute]
    ensures forall key :: key in attrs && key != LocaleAttribute && key != EmailAttribute ==>
      key in r && r[key] == attrs[key]
    ensures forall key :: key in r ==> key in attrs || key == LocaleAttribute || key == EmailAttribute
  {
    if email.Some? then attrs[EmailAttribute := email.value][LocaleAttribute := locale]
    else attrs[LocaleAttribute := locale]
  }

  /** configureStripeBuyButtons over the page's buy buttons, in document order. */
  method ConfigureBuyButtons(storage: map<string, string>, pageLang: string, buttons: array<Attributes>)
    modifies buttons
    ensures forall k :: 0 <= k < buttons.Length ==>
      buttons[k] == Configured(old(buttons[k]), ChooseLocale(Lookup(storage, LocaleKey), pageLang),
                               EmailToSet(Lookup(storage, EmailKey)))
  {
    var email := EmailToSet(Lookup(storage, EmailKey));
    var locale := ChooseLocale(Lookup(storage, LocaleKey), pageLang);
    for k := 0 to buttons.Length
      invariant forall m :: 0 <= m < k ==> buttons[m] == Configured(old(buttons[m]), locale, email)
      invariant forall m :: k <= m < buttons.Length ==> buttons[m] == old(buttons[m])
    {
      var attrs := buttons[k];
      if email.Some? {
        attrs := attrs[EmailAttribute := email.value];
      }
      attrs := attrs[LocaleAttribute := locale];
      buttons[k] := attrs;
    }
  }

  /** What a successful waitlist submission stores reaches every buy button:
      the submitted language becomes the locale, and a valid email is never
      blank, so it is set as the customer email. */
  lemma StoredPreferenceApplies(storage: map<string, string>, email: string, pageLang: string, pricingLang: string, attrs: Attributes)
    requires Email.IsValidEmail(email)
    ensures var stored := storage[EmailKey := email][LocaleKey := Language(pageLang)];
      var r := Configured(attrs, ChooseLocale(Lookup(stored, LocaleKey), pricingLang), EmailToSet(Lookup(stored, EmailKey)));
      r[LocaleAttribute] == Language(pageLang) && r[EmailAttribute] == email
  {
  }
}
