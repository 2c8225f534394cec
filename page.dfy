/** What the handlers share: the page language and the local-storage keys that
    a successful waitlist submission writes and the buy-button configurator reads. */
module Page {
  const DefaultLanguage := "en"
  const EmailKey := "customerEmail"
  const LocaleKey := "customerLocale"

  /** `document.documentElement.lang || 'en'`: the page language, "en" when the
      attribute is empty. */
  function Language(pageLang: string): (r: string)
    ensures r != ""
    ensures pageLang != "" ==> r == pageLang
    ensures pageLang == "" ==> r == DefaultLanguage
  {
    if pageLang == "" then DefaultLanguage else pageLang
  }
}
