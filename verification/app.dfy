/** The chapter-meaning lookup: validate the name, find its link on the
    listing page, fetch the detail page, pick the meaning, and report the
    outcome in a uniform envelope that is returned on every path. */
module App {
  import opened Wrappers
  import opened Text
  import opened Markup
  import opened Listing
  import opened Meaning

  /** The argument as received: a string, or a value of some other type. */
  datatype Arg = Str(value: string) | NotStr

  /** The payload of a successful lookup. */
  datatype SureMeaning = SureMeaning(sure: string, meaning: string)

  /** The `{success, data, error, timestamp}` dictionary. */
  datatype Envelope = Envelope(
    success: bool,
    data: Option<SureMeaning>,
    error: Option<string>,
    timestamp: string)

  /** The envelope together with the URLs fetched, in order, to build it. */
  datatype Run = Run(envelope: Envelope, fetched: seq<string>)

  const InvalidNameError: string := "Geçersiz sure adı. Lütfen bir sure adı girin."
  const FetchErrorPrefix: string := "Web isteği veya parsing hatası: "

  /** "not found", the word both lookup errors share. */
  const NotFound: string := "bulunamadı"

  function NotFoundError(name: string): (msg: string)
    ensures |msg| > |name| + 1 && msg[0] == '\'' && msg[1..|name| + 1] == name
  {
    "'" + name + "' adlı sure " + NotFound + " veya sayfa yapısı değişmiş olabilir."
  }

  function NoMeaningError(name: string): (msg: string)
    ensures |msg| > |name| + 1 && msg[0] == '\'' && msg[1..|name| + 1] == name
    ensures msg != NotFoundError(name)
  {
    "'" + name + "' anlamı ilgili sayfada " + NotFound + ". Sayfa yapısı değişmiş olabilir."
  }

  /** Both lookup errors quote the name and say it was not found. */
  lemma ErrorsMentionName(name: string)
    ensures Contains(NotFoundError(name), name) && Contains(NotFoundError(name), NotFound)
    ensures Contains(NoMeaningError(name), name) && Contains(NoMeaningError(name), NotFound)
  {
    ContainsPieces("'", name, "' adlı sure ", NotFound, " veya sayfa yapısı değişmiş olabilir.");
    ContainsPieces("'", name, "' anlamı ilgili sayfada ", NotFound, ". Sayfa yapısı değişmiş olabilir.");
  }

  /** Data and error are exclusive, and `success` says which is present. */
  predicate WellFormed(e: Envelope): (b: bool)
    ensures b ==> (e.data.Some? <==> e.error.None?)
    ensures b && e.success ==> e.data.Some? && e.error.None?
    ensures b && !e.success ==> e.data.None? && e.error.Some?
  {
    (e.success <==> e.data.Some?) && (e.success <==> e.error.None?)
  }

  /** The argument is a non-empty string. */
  predicate ValidName(arg: Arg): (b: bool)
    ensures arg.NotStr? ==> !b
    ensures arg == Str("") ==> !b
    ensures arg.Str? && |arg.value| > 0 ==> b
  {
    arg.Str? && arg.value != ""
  }

  function Failed(now: string, message: string): Envelope {
    Envelope(false, None, Some(message), now)
  }

  /** The lookup. `fetch` stands for GET-and-parse of a URL and `now` for
      the timestamp taken when the call starts. */
  function GetSureMeaning(arg: Arg, fetch: Fetch, now: string): (run: Run)
    ensures WellFormed(run.envelope) && run.envelope.timestamp == now
    ensures !ValidName(arg) ==>
      run.envelope.error == Some(InvalidNameError) && run.fetched == []
    ensures ValidName(arg) ==>
      1 <= |run.fetched| <= 2 && run.fetched[0] == ListingUrl
    ensures run.envelope.success ==>
      && ValidName(arg)
      && run.envelope.data.value.sure == arg.value
      && run.envelope.data.value.meaning != ""
      && |run.fetched| == 2
  {
    if !ValidName(arg) then Run(Failed(now, InvalidNameError), [])
    else
      var name := arg.value;
      match fetch(ListingUrl)
      case Failure(e) => Run(Failed(now, FetchErrorPrefix + e), [ListingUrl])
      case Success(listing) =>
        match ResolveLink(listing.anchors, name)
        case None => Run(Failed(now, NotFoundError(name)), [ListingUrl])
        case Some(href) =>
          var url := DetailUrl(href);
          match fetch(url)
          case Failure(e) => Run(Failed(now, FetchErrorPrefix + e), [ListingUrl, url])
          case Success(detail) =>
            match SelectMeaning(detail)
            case None => Run(Failed(now, NoMeaningError(name)), [ListingUrl, url])
            case Some(m) =>
              Run(Envelope(true, Some(SureMeaning(name, m)), None, now), [ListingUrl, url])
  }

  /** A failed listing fetch is reported with the fetch-error prefix and
      nothing else is fetched. */
  lemma ListingFailureReported(arg: Arg, fetch: Fetch, now: string)
    requires ValidName(arg) && fetch(ListingUrl).Failure?
    ensures GetSureMeaning(arg, fetch, now)
      == Run(Failed(now, FetchErrorPrefix + fetch(ListingUrl).error), [ListingUrl])
  {
  }

  /** When no anchor yields a link the not-found error names the chapter,
      and no detail page is fetched. */
  lemma UnresolvedNameReported(arg: Arg, fetch: Fetch, now: string)
    requires ValidName(arg) && fetch(ListingUrl).Success?
    requires ResolveLink(fetch(ListingUrl).value.anchors, arg.value).None?
    ensures GetSureMeaning(arg, fetch, now).fetched == [ListingUrl]
    ensures GetSureMeaning(arg, fetch, now).envelope.error == Some(NotFoundError(arg.value))
  {
  }

  /** A failed detail fetch is reported with the fetch-error prefix, after
      both pages were requested. */
  lemma DetailFailureReported(arg: Arg, fetch: Fetch, now: string, href: string)
    requires ValidName(arg) && fetch(ListingUrl).Success?
    requires ResolveLink(fetch(ListingUrl).value.anchors, arg.value) == Some(href)
    requires fetch(DetailUrl(href)).Failure?
    ensures GetSureMeaning(arg, fetch, now) == Run(
      Failed(now, FetchErrorPrefix + fetch(DetailUrl(href)).error),
      [ListingUrl, DetailUrl(href)])
  {
  }

  /** A detail page without a usable meaning gives the missing-meaning
      error. */
  lemma MissingMeaningReported(arg: Arg, fetch: Fetch, now: string, href: string)
    requires ValidName(arg) && fetch(ListingUrl).Success?
    requires ResolveLink(fetch(ListingUrl).value.anchors, arg.value) == Some(href)
    requires fetch(DetailUrl(href)).Success?
    requires SelectMeaning(fetch(DetailUrl(href)).value).None?
    ensures GetSureMeaning(arg, fetch, now).fetched == [ListingUrl, DetailUrl(href)]
    ensures GetSureMeaning(arg, fetch, now).envelope.error == Some(NoMeaningError(arg.value))
  {
  }

  /** The lookup succeeds exactly when every stage succeeds; the data then
      carries the name as given and the meaning chosen on the detail page
      whose address was built from the resolved link. */
  lemma SuccessExactly(arg: Arg, fetch: Fetch, now: string)
    ensures GetSureMeaning(arg, fetch, now).envelope.success <==>
      && ValidName(arg)
      && fetch(ListingUrl).Success?
      && ResolveLink(fetch(ListingUrl).value.anchors, arg.value).Some?
      && fetch(DetailUrl(ResolveLink(fetch(ListingUrl).value.anchors, arg.value).value)).Success?
      && SelectMeaning(fetch(DetailUrl(ResolveLink(fetch(ListingUrl).value.anchors, arg.value).value)).value).Some?
    ensures GetSureMeaning(arg, fetch, now).envelope.success ==>
      var url := DetailUrl(ResolveLink(fetch(ListingUrl).value.anchors, arg.value).value);
      && GetSureMeaning(arg, fetch, now).fetched == [ListingUrl, url]
      && GetSureMeaning(arg, fetch, now).envelope.data
         == Some(SureMeaning(arg.value, SelectMeaning(fetch(url).value).value))
  {
  }

  /** Every failure carries one of the four kinds of message. */
  lemma ErrorKinds(arg: Arg, fetch: Fetch, now: string)
    ensures !GetSureMeaning(arg, fetch, now).envelope.success ==>
      var err := GetSureMeaning(arg, fetch, now).envelope.error.value;
      || err == InvalidNameError
      || (ValidName(arg) && (err == NotFoundError(arg.value) || err == NoMeaningError(arg.value)))
      || (ValidName(arg) && FetchErrorPrefix <= err)
  {
  }
}
