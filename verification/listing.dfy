/** Resolving a chapter ("sure") name to the address of its detail page,
    from the anchors of the chapter listing page. */
module Listing {
  import opened Wrappers
  import opened Text
  import opened Search
  import opened Markup

  /** The chapter listing page. */
  const ListingUrl: string := "https://www.kuranokuyan.com/sure-listesi"

  /** The site root prefixed to site-relative links. */
  const SiteRoot: string := "https://www.kuranokuyan.com"

  /** The qualifier dropped from the lower-cased name before the second
      comparison. */
  const Qualifier: string := " suresi"

  /** An anchor text names the chapter when, lower-cased, it equals the
      lower-cased name, or the lower-cased name with every " suresi"
      removed. */
  predicate Matches(text: string, name: string): (m: bool)
    ensures Lower(text) == Lower(name) ==> m
    ensures m ==> |text| <= |name|
  {
    Lower(text) == Lower(name) || Lower(text) == RemoveAll(Lower(name), Qualifier)
  }

  /** The anchor at `i` is the first one whose text names the chapter. */
  predicate IsFirstMatch(anchors: seq<Anchor>, name: string, i: int) {
    0 <= i < |anchors| && Matches(anchors[i].text, name)
    && forall j :: 0 <= j < i ==> !Matches(anchors[j].text, name)
  }

  /** The `href` taken from the listing: that of the first anchor naming the
      chapter. An empty `href` counts as no link at all, and no later anchor
      is tried in its place. */
  function ResolveLink(anchors: seq<Anchor>, name: string): (r: Option<string>)
    ensures r.Some? <==> exists i :: IsFirstMatch(anchors, name, i) && anchors[i].href != ""
    ensures forall i :: IsFirstMatch(anchors, name, i) ==>
      r == (if anchors[i].href == "" then None else Some(anchors[i].href))
    ensures r.None? && (exists j :: 0 <= j < |anchors| && Matches(anchors[j].text, name)) ==>
      exists i :: IsFirstMatch(anchors, name, i) && anchors[i].href == ""
  {
    match FirstIndex(anchors, (a: Anchor) => Matches(a.text, name))
    case None => None
    case Some(i) => if anchors[i].href == "" then None else Some(anchors[i].href)
  }

  /** Absolute address of the detail page: an `href` beginning with "http"
      is kept as it is, any other is appended to the site root. */
  function DetailUrl(href: string): (url: string)
    ensures "http" <= url
    ensures |href| <= |url| && url[|url| - |href|..] == href
    ensures url == href <==> "http" <= href
    ensures url != href ==> |url| == |SiteRoot| + |href| && url[..|SiteRoot|] == SiteRoot
  {
    if "http" <= href then href else SiteRoot + href
  }

  /** Making an address absolute twice changes nothing the second time. */
  lemma DetailUrlIdempotent(href: string)
    ensures DetailUrl(DetailUrl(href)) == DetailUrl(href)
  {
  }

  /** Anchors after the first one naming the chapter never influence the
      link, whether that anchor's `href` is usable or empty. */
  lemma LaterAnchorsIgnored(a: seq<Anchor>, b: seq<Anchor>, name: string)
    requires exists j :: 0 <= j < |a| && Matches(a[j].text, name)
    ensures ResolveLink(a + b, name) == ResolveLink(a, name)
  {
    var p := (x: Anchor) => Matches(x.text, name);
    assert exists j :: 0 <= j < |a| && p(a[j]);
    FirstIndexPrefix(a, b, p);
    var i := FirstIndex(a, p).value;
    assert (a + b)[i] == a[i];
  }

  /** Anchors before any naming the chapter are skipped over. */
  lemma EarlierNonMatchesSkipped(a: seq<Anchor>, b: seq<Anchor>, name: string)
    requires forall j :: 0 <= j < |a| ==> !Matches(a[j].text, name)
    ensures ResolveLink(a + b, name) == ResolveLink(b, name)
  {
    var p := (x: Anchor) => Matches(x.text, name);
    FirstIndexSkip(a, b, p);
    match FirstIndex(b, p)
    case None =>
    case Some(k) => assert (a + b)[|a| + k] == b[k];
  }

  /** Matching ignores letter case, on both sides. */
  lemma MatchesIgnoresCase(text: string, text': string, name: string, name': string)
    requires Lower(text) == Lower(text') && Lower(name) == Lower(name')
    ensures Matches(text, name) <==> Matches(text', name')
  {
  }

  /** Names that differ only in letter case resolve to the same link. */
  lemma {:induction false} ResolveIgnoresCase(anchors: seq<Anchor>, name: string, name': string)
    requires Lower(name) == Lower(name')
    ensures ResolveLink(anchors, name) == ResolveLink(anchors, name')
  {
    var p := (x: Anchor) => Matches(x.text, name);
    var q := (x: Anchor) => Matches(x.text, name');
    forall j | 0 <= j < |anchors|
      ensures p(anchors[j]) == q(anchors[j])
    {
      MatchesIgnoresCase(anchors[j].text, anchors[j].text, name, name');
    }
    FirstIndexAgree(anchors, p, q);
  }

  /** Lower-casing " Suresi" in any letter case gives the qualifier. */
  lemma QualifierFacts()
    ensures Qualifier != [] && BorderFree(Qualifier)
    ensures Lower(" Suresi") == Qualifier && Lower(" suresi") == Qualifier
  {
    UniqueHeadBorderFree(Qualifier);
  }

  /** A name followed by the qualifier (in any letter case) matches exactly
      the anchors the bare name matches, plus those whose text is the
      qualified name itself, provided the bare name does not already
      contain the qualifier. */
  lemma {:induction false} QualifiedNameMatches(text: string, x: string, q: string)
    requires Lower(q) == Qualifier
    requires !Contains(Lower(x), Qualifier)
    ensures Matches(text, x + q) <==> Lower(text) == Lower(x) || Lower(text) == Lower(x) + Qualifier
    ensures Matches(text, x) ==> Matches(text, x + q)
  {
    QualifierFacts();
    LowerAppend(x, q);
    RemoveAllAppendPattern(Lower(x), Qualifier);
  }

  /** The qualified name resolves to the same link as the bare name unless
      some anchor's text is itself the qualified name. */
  lemma {:induction false} QualifiedNameResolves(anchors: seq<Anchor>, x: string, q: string)
    requires Lower(q) == Qualifier
    requires !Contains(Lower(x), Qualifier)
    requires forall j :: 0 <= j < |anchors| ==> Lower(anchors[j].text) != Lower(x) + Qualifier
    ensures ResolveLink(anchors, x + q) == ResolveLink(anchors, x)
  {
    var p := (a: Anchor) => Matches(a.text, x + q);
    var p' := (a: Anchor) => Matches(a.text, x);
    forall j | 0 <= j < |anchors|
      ensures p(anchors[j]) == p'(anchors[j])
    {
      QualifiedNameMatches(anchors[j].text, x, q);
      assert !Contains(Lower(x), Qualifier);
    }
    FirstIndexAgree(anchors, p, p');
  }
}
