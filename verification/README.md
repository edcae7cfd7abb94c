# Shipment tracking store and UPS status check, modelled in Dafny

This project models the core of the KargoTakip web API: the in-memory list
of shipments (`Kargo` records) held by `KargoService`, the status check that
reads the UPS tracking page of a shipment (`KargoDurumuKontrolEt`), and the
controller action that guards inserts with a duplicate check
(`KargoController.Add`) together with the listing action (`Get`).

Modules, one per component:

- `Wrappers` (wrappers.dfy): `Option`, for C#'s `null` and "not found".
- `Text` (text.dfy): the string primitives the status check uses:
  ordinal substring search, the case-insensitive ordinal `Contains`, `Trim()`,
  and the regex replace that deletes every lazy, line-bound `<.*?>` match.
- `Landmark` (landmark.dfy): the `Regex.Match` that finds the
  estimated-delivery span on the UPS page. The pattern is stated twice: once
  declaratively, as ghost predicates that say piece by piece what text a match
  at a start index covers (`PatternAt`), and once as a deterministic matcher
  per start index (`MatchAt`) followed by a leftmost search (`FindLandmark`).
  The lemmas prove that the two statements agree and that the search finds
  the leftmost match.
- `Models` (models.dfy): the `Kargo` record and the `KargoDurumSonucu` result.
- `Services` (services.dfy): class `KargoService` over a `seq<Kargo>`
  (`Add`, `Exists`, `Delete`, `GetAll`), the key-search functions and the
  unique-key lemmas, the status check as a pure function of the carrier, the
  tracking number and the pages the web serves (`CheckStatus`), class
  `WebClient` for the HTTP client, and `KargoService.KargoDurumuKontrolEt`,
  which runs the check over a client.
- `Controllers` (controllers.dfy): class `KargoController` holding the
  shared service; `Add` changes the service's list in place.

The status check is specified by a function `CheckStatus(firma, takipNo,
fetch)`. There `fetch: string -> Fetched` gives, for a URL, either the page
body or `Failed` (any exception of `GetStringAsync`). The HTTP client is the
class `WebClient`. Its constant `pages` is the web's answer for each URL, and
its field `requests` records every GET issued, in order. So "a duplicate is
refused before any status check" and "only UPS is looked up" are stated as
changes, or no change, to that log in the contracts of
`KargoDurumuKontrolEt` and the controller's `Add`. The time stamp
`DateTime.Now` is the input `now`.

The model follows the code as written: the service's `Add` appends without
any duplicate check (only the controller refuses a known key); nothing is
persisted; a record's status is written once, when it is added, and never
re-checked.

## Model

| member | source | states |
|---|---|---|
| Text.IndexOfFrom | api/Services/KargoService.cs:44 | returns the first index at or after `from` where the literal occurs, or None exactly when it occurs nowhere from there |
| Text.ContainsIgnoreCase | api/Services/KargoService.cs:53 | true iff at some index every character of the literal equals the text's character under the OrdinalIgnoreCase fold |
| Text.Trim | api/Services/KargoService.cs:48-49 | the result has no white space at either end and is an infix of the input with only white space removed around it |
| Text.TrimUnique | api/Services/KargoService.cs:48-49 | those two properties determine `Trim` completely: any trimmed infix with only white space around it is `Trim`'s result |
| Text.TrimIdempotent | api/Services/KargoService.cs:48-49 | trimming twice is trimming once |
| Text.TagEnd | api/Services/KargoService.cs:49 | for a '<', the lazy `.*?>` ends at the first '>' when no line break precedes it; otherwise no '>' is reachable on that line |
| Text.StripTags | api/Services/KargoService.cs:49 | the replace never lengthens the text; what it computes is fixed by the lemmas StripKeepsChar, StripKeepsUnclosedOpen and StripRemovesTag (one per way the scan can go at a position, StripCasesCover showing there is no other), and StripNoTag and StripIdempotent state what it leaves |
| Text.StripCasesCover | api/Services/KargoService.cs:49 | at a '<' the scan either finds no '>' before the line break or finds a whole tag run, so the three case lemmas cover every input |
| Text.StripKeepsChar | api/Services/KargoService.cs:49 | a character other than '<' at the front is kept, and the replace goes on after it |
| Text.StripKeepsUnclosedOpen | api/Services/KargoService.cs:49 | a '<' with no '>' before the next line break is kept, and the replace goes on after it |
| Text.StripRemovesTag | api/Services/KargoService.cs:49 | the first `<…>` run (no line break, ending at its first '>') is deleted, the '<'-free text before it is kept, and the replace goes on after it; with the two lemmas above this fixes the result of the replace on every input |
| Text.StripNoTag | api/Services/KargoService.cs:49 | after the `<.*?>` replace no `<…>` run without a line break is left |
| Text.StripIdentity | api/Services/KargoService.cs:49 | on text with no such run, the replace changes nothing |
| Text.StripIdempotent | api/Services/KargoService.cs:49 | replacing a second time changes nothing |
| Text.NoTagTrim | api/Services/KargoService.cs:49 | trimming tag-free text keeps it tag-free |
| Landmark.SkipSpace | api/Services/KargoService.cs:44 | `\s*` consumes exactly the maximal white-space run at the position |
| Landmark.SpaceRunEnd | api/Services/KargoService.cs:44 | a white-space run that stops before a non-white-space character is the one `\s*` consumes |
| Landmark.OpenTagEndIff | api/Services/KargoService.cs:44 | `<span[^>]*ID[^>]*>` matches at a start and ends at `a` iff the text there opens with `<span`, `a` is just past its first '>' and the id text lies wholly before that '>' |
| Landmark.BreakEndComplete | api/Services/KargoService.cs:44 | `<br\s*\/?>` after the label: every white-space run followed by `>` or `/>` is the one the matcher takes |
| Landmark.ValueAtComplete | api/Services/KargoService.cs:44 | `\s*<span[^>]*id="…teslimat_zamani"[^>]*>(.*?)<\/span>`: every way the text can be read so is the capture the matcher returns, and the lazy group stops at the first `</span>` |
| Landmark.MatchAt | api/Services/KargoService.cs:44 | a match attempt that succeeds captures text followed by `</span>` and containing no `</span>` start before its end |
| Landmark.MatchAtIff | api/Services/KargoService.cs:44 | the match attempt at `p` captures `[e, f)` iff the whole pattern (label span, label text, `</span><br`, white space, `>` or `/>`, white space, value span, lazy group, `</span>`) covers the text from `p` with the group at `[e, f)` |
| Landmark.FirstMatchFrom | api/Services/KargoService.cs:44 | returns the leftmost start at which the pattern matches, or None when no start does |
| Landmark.FindLandmark | api/Services/KargoService.cs:44-48 | None iff the pattern matches at no start; otherwise the group of the leftmost match, which is text of the page directly followed by `</span>` and contains no `</span>` |
| Landmark.FoundIffPattern | api/Services/KargoService.cs:44-46 | `match.Success` iff the pattern covers the page from some start with some group |
| Landmark.LeftmostPatternFound | api/Services/KargoService.cs:44-48 | when the pattern matches at `p` with group `[e, f)` and at no earlier start, the group value is exactly that text |
| Landmark.FoundIsLeftmost | api/Services/KargoService.cs:44-48 | a found group is the group of a match that no earlier start has |
| Landmark.CaptureHasNoClose | api/Services/KargoService.cs:44 | text that stops before the first `</span>` contains none |
| Services.HasKey | api/Services/KargoService.cs:21 | the LINQ Any over the list is true iff some record has key `t` |
| Services.IndexOfKey | api/Services/KargoService.cs:26 | the LINQ FirstOrDefault finds the first record with key `t`: every earlier record has another key; None iff no record has it |
| Services.AppendNewKeyKeepsUnique | api/Controllers/KargoController.cs:23-32 | appending a record whose key is absent keeps all keys distinct |
| Services.AppendKnownKeyBreaksUnique | api/Services/KargoService.cs:14-17 | the list does not guard its key: appending a present key produces two records with that key |
| Services.RemoveKeepsUnique | api/Services/KargoService.cs:24-30 | removing one record from a list with distinct keys keeps them distinct and leaves no record with the removed key |
| Services.KargoService.constructor | api/Services/KargoService.cs:10 | the service starts with an empty list |
| Services.KargoService.GetAll | api/Services/KargoService.cs:12 | returns the list as it stands, in insertion order, and changes nothing |
| Services.KargoService.Add | api/Services/KargoService.cs:14-17 | the new list is the old list with the record appended at the end, even if its key is already present |
| Services.KargoService.Exists | api/Services/KargoService.cs:19-22 | true iff some record has the key; reads the list only |
| Services.KargoService.Delete | api/Services/KargoService.cs:24-32 | with a match: removes exactly the first record with the key, keeps the others in order, returns true; without: returns false and changes nothing; keeps keys distinct and then leaves none with that key |
| Services.RequestFor | api/Services/KargoService.cs:36-42 | a page is fetched iff the carrier is exactly "UPS", and its URL is the UPS waybill query followed by the tracking number |
| Services.CleanEstimate | api/Services/KargoService.cs:48-49 | the estimate is the capture trimmed, put through the `<.*?>` replace and trimmed again; it is trimmed, has no `<…>` run on one line, and is unchanged by another replace or trim |
| Services.CleanEstimateOfPlainText | api/Services/KargoService.cs:48-49 | a capture that is already trimmed and tag-free is kept as it is |
| Services.Estimate | api/Services/KargoService.cs:44-51 | the estimate stays null iff the landmark does not match; otherwise it is the cleaned capture |
| Services.EstimateOfLeftmost | api/Services/KargoService.cs:44-51 | when the pattern matches first at `p` with group `[e, f)`, the estimate is that text, cleaned |
| Services.ReadPage | api/Services/KargoService.cs:43-54 | delivered iff the page contains "Paketiniz teslim edilmiştir" ignoring case; the estimate is the page's estimate |
| Services.CheckStatus | api/Services/KargoService.cs:34-66 | any carrier but "UPS", and a failed fetch, give not delivered with no estimate; a fetched UPS page gives that page's reading; delivered iff UPS, the page was fetched and holds the phrase ignoring case; an estimate only from a fetched UPS page whose landmark matched, trimmed and tag-free |
| Services.WebClient.constructor | api/Services/KargoService.cs:40 | a new client serves the given pages and has issued no request |
| Services.WebClient.GetString | api/Services/KargoService.cs:42 | returns what the web serves for the URL and logs exactly that one GET |
| Services.KargoService.KargoDurumuKontrolEt | api/Services/KargoService.cs:34-66 | the result is `CheckStatus` over the client's pages, and the client's log grows by the UPS waybill URL for "UPS" and by nothing for any other carrier |
| Controllers.KargoController.constructor | api/Controllers/KargoController.cs:15-18 | the controller works on the service it is given |
| Controllers.KargoController.Add | api/Controllers/KargoController.cs:20-34 | a known key gives Conflict with the fixed message, no change to the list and no request logged by the client; otherwise Ok, the client's log grows by exactly the status check's request, exactly one record appended and nothing else changed, with carrier, key, store and request ids as submitted, the status fields from the check and the time `now`; distinct keys stay distinct either way |
| Controllers.KargoController.Get | api/Controllers/KargoController.cs:36-40 | returns the service's records in insertion order without changing them |

## Left out

- The HTTP request itself (`HttpClient.GetStringAsync`): modelled by `WebClient`, whose answers are a fixed function from URL to body or failure; timeouts, retries and the disposal of the client are not modelled, and `KargoDurumuKontrolEt` takes the client as a parameter instead of creating one.
- Text.ContainsIgnoreCase: the OrdinalIgnoreCase fold covers the ASCII letters, the Latin-1 small letters à–þ (except ÷) and the Turkish ğ and ş only; other letters (among them ı, İ, ſ, ÿ and µ, which .NET upper-cases to Ÿ and Μ) compare unchanged, which is weaker than .NET's full casing table.
- Text.IsWhiteSpace covers the Basic Multilingual Plane white-space characters of `char.IsWhiteSpace` and the regex class `\s`; characters are Unicode scalar values, so UTF-16 surrogate pairs are not modelled.
- Landmark.OpenTagEnd, BreakEnd, ValueAt and AfterLabelAt carry no or only bounding ensures of their own; the pieces of the pattern they implement are stated by the `…Sound`/`…Complete` lemmas beside them and, for the whole pattern, by `MatchAtIff`.
- Landmark.FindLandmark: regex timeouts and the general .NET regex engine are not modelled; only this one pattern is, by a matcher that follows its pieces.
- `DateTime.Now.ToString("HH:mm")`: the time stamp is the input `now`.
- `Kargo` is a value: the controller's in-place field assignments on the posted object become one record update before it is appended, and the list returned by `GetAll` is a copy, so aliasing of the live `List<Kargo>` by callers is not modelled.
- `null` strings and `null` list elements are not modelled; every string is a sequence of characters.
- The ASP.NET routing, model binding and the HTTP status codes beyond Ok/Conflict are not modelled; the controller declares no delete action, so `KargoService.Delete` has no HTTP caller in the code.
- KargoTimerService.cs, the timed background loop, is not modelled: the `CheckKargoStatuses` it calls does not exist in KargoService.cs.
- Program.cs (service registration, hosting) and script.js (the browser page) are not modelled.
- Concurrent use of the singleton service from several requests is not modelled; the code has no locking.
- Controllers.KargoController.Add runs as one atomic step in the model; in the code the `await` of the status check (api/Controllers/KargoController.cs:26) lies between the `Exists` test and `_service.Add`, so two concurrent POSTs of the same tracking number can both pass the test and both append, and the distinct-keys guarantee then fails.
- Persistence, status re-checks, ticket-portal discovery and request pacing are not in the code and are not modelled.
