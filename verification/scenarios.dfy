/** Worked examples: one listing page and one detail page, and what the
    lookup makes of them under several spellings of the same name. */
module Scenarios {
  import opened Wrappers
  import opened Text
  import opened Markup
  import opened Listing
  import opened Meaning
  import opened App

  const Home: Anchor := Anchor("Ana Sayfa", "/")
  const Fatiha: Anchor := Anchor("Fatiha", "/fatiha-suresi")
  const Bakara: Anchor := Anchor("Bakara", "https://www.kuranokuyan.com/bakara-suresi")

  const ListingPage: Document := Document([Home, Fatiha, Bakara], [], None)

  const FatihaPage: Document :=
    Document([], [Div(["sure-meal"], "Açılış")], Some("Fatiha suresi"))

  /** A site serving the two pages and failing every other request. */
  function Site(url: string): Result<Document, string> {
    if url == ListingUrl then Success(ListingPage)
    else if url == "https://www.kuranokuyan.com/fatiha-suresi" then Success(FatihaPage)
    else Failure("404 Client Error")
  }

  /** "Fatiha", "fatiha" and "Fatiha Suresi" all pick the second anchor of
      the listing, past the home-page link. */
  lemma SpellingsResolveAlike()
    ensures ResolveLink(ListingPage.anchors, "Fatiha") == Some("/fatiha-suresi")
    ensures ResolveLink(ListingPage.anchors, "fatiha") == Some("/fatiha-suresi")
    ensures ResolveLink(ListingPage.anchors, "Fatiha Suresi") == Some("/fatiha-suresi")
  {
    var anchors := ListingPage.anchors;
    BareNameResolves();
    assert Lower("Fatiha") == Lower("fatiha");
    ResolveIgnoresCase(anchors, "Fatiha", "fatiha");
    QualifiedFatihaResolves();
  }

  /** "fatiha" is too short to contain the qualifier. */
  lemma BareNameShort()
    ensures |Lower("Fatiha")| < |Qualifier|
    ensures !Contains(Lower("Fatiha"), Qualifier)
  {
  }

  /** The home-page link is passed over and the Fatiha anchor chosen. */
  lemma BareNameResolves()
    ensures ResolveLink(ListingPage.anchors, "Fatiha") == Some("/fatiha-suresi")
  {
    BareNameShort();
    assert |Lower(Home.text)| != |Lower("Fatiha")|;
    assert |Lower(Home.text)| != |RemoveAll(Lower("Fatiha"), Qualifier)|;
    assert Matches(Fatiha.text, "Fatiha");
    assert IsFirstMatch(ListingPage.anchors, "Fatiha", 1);
  }

  /** "Fatiha Suresi" resolves as "Fatiha" does. */
  lemma QualifiedFatihaResolves()
    ensures ResolveLink(ListingPage.anchors, "Fatiha Suresi") == Some("/fatiha-suresi")
  {
    var bare, qualified := "Fatiha", "Fatiha Suresi";
    assert qualified == bare + " Suresi";
    QualifiedFatihaPremises();
    QualifiedNameResolves(ListingPage.anchors, bare, " Suresi");
    BareNameResolves();
  }

  /** No anchor of the sample listing reads "fatiha suresi". */
  lemma QualifiedFatihaPremises()
    ensures Lower(" Suresi") == Qualifier
    ensures !Contains(Lower("Fatiha"), Qualifier)
    ensures forall j :: 0 <= j < |ListingPage.anchors| ==>
      Lower(ListingPage.anchors[j].text) != Lower("Fatiha") + Qualifier
  {
    BareNameShort();
  }

  /** The relative link is made absolute; the absolute one is kept. */
  lemma ListingLinksMadeAbsolute()
    ensures DetailUrl(Fatiha.href) == "https://www.kuranokuyan.com/fatiha-suresi"
    ensures DetailUrl(Bakara.href) == Bakara.href
  {
    assert Fatiha.href[0] != "http"[0];
    assert SiteRoot + Fatiha.href == "https://www.kuranokuyan.com/fatiha-suresi";
    assert "http" <= Bakara.href;
  }

  /** Looking up "Fatiha Suresi" fetches the listing and then the Fatiha
      page, and returns the "meal" text with the name exactly as typed. */
  lemma FatihaLookup()
    ensures GetSureMeaning(Str("Fatiha Suresi"), Site, "2025-01-01T00:00:00") == Run(
      Envelope(true, Some(SureMeaning("Fatiha Suresi", "Açılış")), None, "2025-01-01T00:00:00"),
      [ListingUrl, "https://www.kuranokuyan.com/fatiha-suresi"])
  {
    QualifiedFatihaResolves();
    ListingLinksMadeAbsolute();
    FatihaPageMeaning();
    assert Site(ListingUrl) == Success(ListingPage);
  }

  /** The Fatiha page's meaning is the text of its "meal" div. */
  lemma FatihaPageMeaning()
    ensures SelectMeaning(FatihaPage) == Some("Açılış")
  {
    MarkerCaseSensitive();
    assert IsFirstMealDiv(FatihaPage.divs, 0);
  }

  /** An empty name is refused before anything is fetched. */
  lemma EmptyNameRefused()
    ensures GetSureMeaning(Str(""), Site, "t").fetched == []
    ensures GetSureMeaning(Str(""), Site, "t").envelope == Envelope(false, None, Some(InvalidNameError), "t")
  {
  }

  /** A name on no anchor is reported as not found after the listing alone
      is fetched. */
  lemma UnknownNameNotFound()
    ensures GetSureMeaning(Str("Yok"), Site, "t") ==
      Run(Envelope(false, None, Some(NotFoundError("Yok")), "t"), [ListingUrl])
  {
    var anchors := ListingPage.anchors;
    assert Lower("Yok") == "yok";
    assert !Contains(Lower("Yok"), Qualifier);
    assert forall j :: 0 <= j < |anchors| ==> !Matches(anchors[j].text, "Yok");
  }
}
