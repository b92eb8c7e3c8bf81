/**
 * Concrete inputs to `formatUrl` and what it makes of them: a bare client
 * label, the label with the domain, the full address with a trailing slash,
 * capitals and stray dots, a capitalised domain, and the one input shape on
 * which a second pass changes the address. Each follows from a general lemma of
 * SiteAddress once the literal is split into a label and its surroundings.
 */
module SiteAddressExamples {
  import opened Strings
  import opened SiteAddress

  const Acme: string := "acme"
  const AcmeAddress: string := "https://acme.softcomshop.com.br"

  lemma AcmeAddressParts()
    ensures AcmeAddress == Https + Acme + Domain
  {
  }

  /** The bare client name. */
  lemma AcmeBare()
    ensures FormatUrl("acme") == AcmeAddress
  {
    assert PlainLabel(Acme);
    PlainLabelBare(Acme);
    AcmeAddressParts();
  }

  lemma AcmeWithDomainParts()
    ensures "acme.softcomshop.com.br" == Acme + Domain
  {
  }

  /** The client name followed by the domain, without a protocol. */
  lemma AcmeWithDomain()
    ensures FormatUrl("acme.softcomshop.com.br") == AcmeAddress
  {
    assert PlainLabel(Acme);
    PlainLabelWithDomain(Acme);
    AcmeWithDomainParts();
    AcmeAddressParts();
  }

  lemma AcmeFullAddressParts()
    ensures "https://acme.softcomshop.com.br/" == Https + Acme + Domain + "/"
  {
  }

  /** The full address with a trailing slash. */
  lemma AcmeFullAddress()
    ensures FormatUrl("https://acme.softcomshop.com.br/") == AcmeAddress
  {
    assert PlainLabel(Acme);
    PlainLabelFullAddress(Acme);
    AcmeFullAddressParts();
    AcmeAddressParts();
  }

  lemma AcmeCapitalsParts()
    ensures "ACME.softcomshop.com.br.." == "ACME" + Domain + ".."
    ensures "https://ACME.softcomshop.com.br" == Https + "ACME" + Domain
  {
  }

  /**
   * The label in capitals with the domain in lower case and stray dots: the
   * domain and dots go, and the label keeps its letter case.
   */
  lemma AcmeCapitalsWithDots()
    ensures FormatUrl("ACME.softcomshop.com.br..") == "https://ACME.softcomshop.com.br"
  {
    assert PlainLabel("ACME");
    PlainLabelWithDots("ACME", "..");
    AcmeCapitalsParts();
  }

  lemma DotSpaceDotParts()
    ensures "acme. ." == Acme + ". ."
    ensures "https://acme..softcomshop.com.br" == Https + (Acme + ".") + Domain
  {
  }

  /**
   * "acme. ." becomes "https://acme..softcomshop.com.br", and normalising that
   * again gives "https://acme.softcomshop.com.br": `formatUrl` is not idempotent.
   */
  lemma IdempotenceCounterexample()
    ensures FormatUrl("acme. .") == "https://acme..softcomshop.com.br"
    ensures FormatUrl("https://acme..softcomshop.com.br") == AcmeAddress
    ensures FormatUrl(FormatUrl("acme. .")) != FormatUrl("acme. .")
  {
    assert PlainLabel(Acme);
    DotSpaceDotParts();
    DotSpaceDotSegment(Acme);
    DotSpaceDotSecondPass(Acme);
    AcmeAddressParts();
  }

  const Shouted: string := "ACME.SOFTCOMSHOP.COM.BR"
  const ShoutedDomain: string := ".SOFTCOMSHOP.COM.BR"

  lemma ShoutedDomainLowered()
    ensures ToLower(ShoutedDomain) == Domain
  {
  }

  lemma ShoutedParts()
    ensures Shouted == "ACME" + ShoutedDomain
  {
  }

  lemma ShoutedAddressParts()
    ensures Https + Shouted + Domain == Https + "ACME" + ShoutedDomain + Domain
  {
    ShoutedParts();
  }


  /**
   * The domain typed in capitals is not split off: the whole text becomes the
   * segment and the address reads "https://ACME.SOFTCOMSHOP.COM.BR.softcomshop.com.br".
   */
  lemma UpperCaseDomain()
    ensures FormatUrl(Shouted) == Https + Shouted + Domain
  {
    ShoutedDomainLowered();
    ShoutedParts();
    ShoutedAddressParts();
    assert PlainLabel("ACME");
    CaseOnlyDomainKept("ACME", ShoutedDomain);
  }
}
