# Chapter-meaning lookup of kuranokiyan, modelled in Dafny

`get_sure_meaning` in `app.py` takes a chapter ("sure") name and answers with
a `{success, data, error, timestamp}` envelope. It checks that the name is a
non-empty string. It fetches the chapter listing page of kuranokuyan.com and
takes the `href` of the first anchor whose text names the chapter. The text
is compared case-insensitively, with and without every " suresi" in the
name. It makes that link absolute and fetches the detail page. The meaning
is the text of the first `div` that has a class containing "meal"; if that
is empty or missing, the text of the first `<p>` is used. Every outcome,
including a failed request, is returned in the envelope; nothing is raised.

The model keeps that decision logic and takes the network and the HTML
parser as inputs:

- `Markup`: a parsed page is a `Document`. It holds the anchors that carry
  an `href`, every `div` with its class list, and the optional first
  paragraph, all in document order with stripped text. A `Fetch` maps a URL
  to a `Document` or to the text of the exception raised.
- `Text`: ASCII lower-casing (`str.lower`), substring search (`in`), and
  `RemoveAll`, which is `str.replace(pat, "")`: leftmost, non-overlapping,
  no rescan.
- `Search`: the first-hit scan used for both anchors and divs.
- `Listing`: the name-matching predicate, link resolution and the URL rule.
- `Meaning`: the "meal" div / first paragraph fallback.
- `App`: the envelope and `GetSureMeaning`. It returns the envelope and the
  list of URLs it fetched, so "nothing is fetched" can be stated.
- `Scenarios`: a small listing page and detail page, and what the lookup
  makes of them.

Behaviour as the code has it:

- Error texts are the code's Turkish messages. The not-found messages
  contain "bulunamadı" and quote the name.
- Every occurrence of " suresi" in the lower-cased name is removed, not only
  a trailing one.
- An anchor whose text is "Fatiha Suresi" is not matched by the name
  "Fatiha".
- If the first matching anchor has an empty `href`, the result is the
  not-found error. Later anchors are not tried.
- The meaning has no minimum length; any non-empty text qualifies. "meal" is
  matched case-sensitively inside a class name.
- An existing but empty first paragraph counts as no meaning. A found
  BeautifulSoup tag is always truthy, so its empty text is what fails the
  check on app.py:69.

## Model

| member | source | states |
|---|---|---|
| Text.Lower | app.py:47 | lower-casing keeps the length, turns each ASCII capital into its own small letter, leaves no capital behind and does not touch other characters |
| Text.LowerIdempotent | app.py:47 | lower-casing an already lower-cased name changes nothing |
| Text.LowerAppend | app.py:47 | lower-casing a name with a qualifier appended is the lower-cased name followed by the lower-cased qualifier |
| Text.RemoveAll | app.py:47 | `replace(" suresi", "")` never lengthens the name and leaves a name without the pattern unchanged |
| Text.RemoveAllSplit | app.py:47 | `replace(" suresi", "")` drops an occurrence wherever it sits, keeping the pattern-free text before it unchanged, so a middle " suresi" is removed too |
| Text.RemoveAllAppendPattern | app.py:47 | appending one copy of a border-free pattern such as " suresi" does not change what the removal leaves |
| Search.FirstIndex | app.py:45-49 | the scan returns the position of the first element satisfying the test, and nothing exactly when no element does |
| Search.FirstIndexPrefix | app.py:45-49 | once a prefix holds a hit, elements after it cannot change the result of the `break`ing loop |
| Search.FirstIndexSkip | app.py:45-49 | elements before the first hit are passed over and the hit is found further on |
| Search.FirstIndexAgree | app.py:45-49 | two tests that agree on every element stop at the same place |
| Listing.Matches | app.py:47 | an anchor whose lower-cased text equals the lower-cased name always matches, and no anchor text longer than the name can match |
| Listing.ResolveLink | app.py:44-52 | a link exists exactly when the first anchor whose text names the chapter has a non-empty `href`, and it is that `href`; a matching anchor with an empty `href` gives no link |
| Listing.LaterAnchorsIgnored | app.py:45-49 | anchors after the first match never affect the resolved link |
| Listing.EarlierNonMatchesSkipped | app.py:45-49 | anchors that do not name the chapter, placed in front, do not change the link |
| Listing.MatchesIgnoresCase | app.py:47 | whether an anchor matches is independent of letter case in both the anchor text and the name |
| Listing.ResolveIgnoresCase | app.py:45-49 | names differing only in letter case resolve to the same link |
| Listing.QualifierFacts | app.py:47 | " Suresi" and " suresi" both lower-case to the removed qualifier, which cannot overlap itself |
| Listing.QualifiedNameMatches | app.py:47 | "X Suresi" matches exactly the anchors "X" matches plus those reading "X suresi", when X does not already contain the qualifier |
| Listing.QualifiedNameResolves | app.py:45-49 | "X Suresi" resolves like "X" unless some anchor's text is itself "X suresi" |
| Listing.DetailUrl | app.py:54 | the detail URL starts with "http" and ends with the `href`; it equals the `href` exactly when that starts with "http", and is otherwise the site root followed by the `href` |
| Listing.DetailUrlIdempotent | app.py:54 | making an address absolute a second time changes nothing |
| Meaning.HasMealClass | app.py:61 | a div with a class exactly "meal" qualifies, and a qualifying div has a class at least as long as "meal"; a div without classes never qualifies |
| Meaning.SelectMeaning | app.py:59-71 | a meaning is never empty; the first "meal" div's text wins when non-empty; otherwise there is a meaning exactly when the first paragraph exists and is non-empty, and then it is that paragraph |
| Meaning.LaterDivsIgnored | app.py:60-63 | only the first "meal" div is consulted; divs after it change nothing |
| Meaning.ParagraphOnlyAsFallback | app.py:64-68 | the first paragraph is irrelevant when the first "meal" div has text |
| Meaning.MarkerCaseSensitive | app.py:61 | a class "Meal" does not qualify while "sure-meal" does |
| Meaning.EmptyFirstMealDivNotRescued | app.py:60-71 | an empty first "meal" div is not replaced by a later one with text |
| App.ValidName | app.py:35 | a non-string argument and the empty string are refused, and every non-empty string is accepted |
| App.WellFormed | app.py:29-34 | in a well-formed envelope exactly one of data and error is present, data on success and error on failure |
| App.NotFoundError | app.py:51 | the not-found message opens with the name in quotes |
| App.NoMeaningError | app.py:70 | the missing-meaning message opens with the name in quotes and differs from the not-found message |
| App.GetSureMeaning | app.py:18-80 | every path yields a well-formed envelope stamped with the call's timestamp; an invalid name gives the invalid-name error before any fetch; a valid one fetches the listing first and at most one more page; success carries the name as given and a non-empty meaning |
| App.ErrorsMentionName | app.py:50-71 | both lookup errors quote the name and contain "bulunamadı" |
| App.ListingFailureReported | app.py:78-80 | a failed listing fetch gives the prefixed fetch error and no further fetch |
| App.UnresolvedNameReported | app.py:50-52 | with no usable link the not-found error is returned and the detail page is not fetched |
| App.DetailFailureReported | app.py:53-57 | a failed detail fetch gives the prefixed fetch error after both URLs were requested |
| App.MissingMeaningReported | app.py:69-71 | a detail page without a usable meaning gives the missing-meaning error |
| App.SuccessExactly | app.py:72-77 | success holds exactly when all stages succeed, and then the data is the name as given with the meaning chosen from the detail page |
| App.ErrorKinds | app.py:35-80 | every failure carries the invalid-name, not-found or missing-meaning message, or the prefixed fetch error |
| Scenarios.SpellingsResolveAlike | app.py:45-49 | "Fatiha", "fatiha" and "Fatiha Suresi" resolve to the same anchor on a sample listing |
| Scenarios.ListingLinksMadeAbsolute | app.py:54 | a site-relative link gets the site root; an absolute one is kept |
| Scenarios.FatihaPageMeaning | app.py:60-63 | a sample detail page's meaning is the text of its "sure-meal" div |
| Scenarios.FatihaLookup | app.py:18-80 | a full sample lookup returns the "meal" text and fetches exactly the listing and the Fatiha page |
| Scenarios.EmptyNameRefused | app.py:35-37 | an empty name is refused with nothing fetched |
| Scenarios.UnknownNameNotFound | app.py:50-52 | a name on no anchor gives the not-found error after only the listing fetch |

## Left out

- Text.Lower: models only ASCII case. Python's `str.lower` also folds non-ASCII letters, such as Turkish "İ", which is not modelled.
- Text.RemoveAll: requires a non-empty pattern. Python's `replace` with an empty pattern behaves differently, but the code only ever removes " suresi".
- Network I/O (`requests.get`, the 10-second timeouts, `raise_for_status`): modelled as a `Fetch` function returning a document or the exception text.
- HTML parsing (`find_all`, `get_text(strip=True)`, `get("class")`): a foreign library. Its results are taken as given sequences.
- `functools.lru_cache` memoisation: library behaviour. This includes the `TypeError` it raises for unhashable arguments before the function body runs.
- `datetime.utcnow().isoformat()`: the timestamp is an opaque string parameter.
- `dummyTool` in app.py and the whole of server.py: a placeholder stub and the MCP transport with JSON serialisation. Neither has lookup logic.
- `kuran_arastirma_yap`: server.py imports it, but it is defined nowhere in the repository's files.
