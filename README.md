# Search-results store of the Tribler web UI

This project models the client-side state kept by `TriblerService`, the one
data-access service of the Tribler web UI (an Angular control panel for the
Tribler peer-to-peer client), and proves properties of that model in Dafny.

The service keeps two pieces of state:

- `searchResults`: the list of search hits shown to the user. It is
  updated in place from the push-event channel.
- the latest search query. The source publishes it to a `ReplaySubject` of
  size 1, so a late subscriber still receives the most recent query. The
  model keeps it as the field `lastQuery: Option<string>`: the value such a
  subscriber receives, or `None` before the first search.

The operations modelled:

- `search(term)` publishes the term and empties the list at once, before
  any result of the new search can arrive.
- `_processEvent(ev)` dispatches on the event's `type` string:
  - a `search_result_channel` result is tagged `channel` and appended, but
    only when its `torrents` count is positive, and without a re-sort;
  - a `search_result_torrent` result is tagged `torrent` and appended, and
    then the whole list, channels included, is sorted by non-increasing
    `relevance_score`;
  - `channel_discovered`, `torrent_discovered` and any other type are
    ignored.
- `addType(objects, type)` stamps a `type` tag on every record of a list.
- `startDownload` and `removeDownload` build the form bodies of their
  requests. `startDownload` writes `anon_hops=<h>&safe_seeding=1&destination=<d>&uri=<u>`
  and then one `&selected_files[]=<f>` per selected file, in order.
  `removeDownload` sends `remove_data=1` or `remove_data=0`.

Layout:

- `wrappers.dfy` (module `Wrappers`): `Option`.
- `search_results.dfy` (module `SearchResults`): the `Entry` record,
  tagging, the relevance order, and the insertion sort that re-sorts the list.
- `request_bodies.dfy` (module `RequestBodies`): the two request bodies,
  decimal rendering of the hop count, and `Fields`, which reads a body back
  as its `&`-separated fields (as `String.prototype.split('&')` would). It
  also holds the magnet link that the torrent list's play action downloads,
  and an escaped variant of the start-download body (see "## Findings").
- `service.dfy` (module `Service`): the class `TriblerService` with the
  fields `searchResults` and `lastQuery` and its methods. It also holds two
  client methods that walk through concrete event sequences, among them the
  torrents scored 0.9, then 0.5, then 0.95, which end up ordered 0.95, 0.9,
  0.5.

Scores are integers; the client methods scale the decimal scores by 100.
Events arrive already parsed, as `Event(kind, result)`.

Where the model departs from the literal code:

- `search` sets `searchResults.length = 0` (line 142) and then runs a
  `while`/`pop` loop (lines 143-145). Right after `length = 0` the loop's
  guard `length > 0` is false, so lines 143-145 never run. The model keeps
  only the truncation.
- The list holds record values, not shared objects. Tagging a record
  replaces it with a tagged copy. In the source the record object is
  mutated in place.

`DownloadBodyFields` reads every start-download body back as fields, whatever
its values hold. The source inserts the values unescaped, so a value holding
`&` reads back as more than one field. Every magnet link the web UI builds
holds one (`&dn=`), so its `dn` part arrives as a separate field; this is
recorded under "## Findings".

## Model

| member | source | states |
|---|---|---|
| `SearchResults.TaggedAt` | src/app/shared/tribler.service.ts:26-31 | tagging a list keeps its length and order; record i becomes record i with `type` set to the tag and every other attribute unchanged |
| `SearchResults.TaggedTwice` | src/app/shared/tribler.service.ts:26-31 | tagging a list twice leaves only the last tag, so re-tagging with the same tag changes nothing |
| `SearchResults.InsertByRelevance` | src/app/shared/tribler.service.ts:178-182 | inserting into a list sorted by non-increasing score gives a sorted list holding the old records plus the new one |
| `SearchResults.SortByRelevance` | src/app/shared/tribler.service.ts:178-182 | the re-sort returns the same records (a permutation) ordered by non-increasing `relevance_score`, which is the comparator's order (1 when a < b, -1 when a > b) |
| `SearchResults.SortedPermutationUnique` | src/app/shared/tribler.service.ts:178-182 | when scores are distinct, any two orderings of the same records by non-increasing score are equal, so the sort's result does not depend on how the engine breaks ties |
| `RequestBodies.NatToDecimal` | src/app/shared/tribler.service.ts:88 | the hop count renders as a non-empty string of decimal digits whose value is the count, with no leading zero (`0` alone for zero) |
| `RequestBodies.IntToDecimal` | src/app/shared/tribler.service.ts:88 | the rendered hop count starts with `-` exactly when it is negative, and holds no `&`, so it stays one field of the body |
| `RequestBodies.IntToDecimalDigits` | src/app/shared/tribler.service.ts:88 | after the sign, the rendered hop count is the canonical decimal numeral of its magnitude: digits only, no leading zero, denoting the magnitude |
| `RequestBodies.FilesSuffixAppend` | src/app/shared/tribler.service.ts:89-90 | one more selected file appends exactly `&selected_files[]=<f>` to the files part of the body |
| `RequestBodies.DownloadBodyAppend` | src/app/shared/tribler.service.ts:89-90 | one more selected file appends exactly `&selected_files[]=<f>` to the whole start-download body |
| `RequestBodies.DownloadBodyFields` | src/app/shared/tribler.service.ts:88-91 | for all values, read as `&`-separated fields, the body is `anon_hops=<h>`, `safe_seeding=1`, then the fields of `destination=<d>`, of `uri=<u>` and of each `selected_files[]=<f>` in input order |
| `RequestBodies.DownloadBodyFieldsWithoutSeparators` | src/app/shared/tribler.service.ts:88-91 | when no value holds `&`, the body reads back as exactly `anon_hops=<h>`, `safe_seeding=1`, `destination=<d>`, `uri=<u>` and one `selected_files[]=<f>` per file in input order, just the four when no file is selected |
| `RequestBodies.MagnetBodyFields` | src/app/list/torrent-list-item.component.ts:46 | the body for a magnet link `magnet:?xt=urn:btih:<ih>&dn=<name>` reads back as five fields, with `dn=<name>` split off from `uri` |
| `RequestBodies.PlayBodyFields` | src/app/list/torrent-list-item.component.ts:46 | the play action's own call (empty destination, 0 hops, no files) reads back as `anon_hops=0`, `safe_seeding=1`, `destination=`, `uri=magnet:?xt=urn:btih:<ih>`, `dn=<name>` |
| `RequestBodies.UnescapeEscape` | src/app/shared/tribler.service.ts:135 | unescaping an escaped value gives back the value |
| `RequestBodies.EscapedDownloadBodyFields` | src/app/shared/tribler.service.ts:88-91 | with its values escaped, every start-download body reads back as exactly the four parameters and one `selected_files[]` field per file, in order, and each value unescapes to the original |
| `RequestBodies.RemoveDownloadBody` | src/app/shared/tribler.service.ts:104 | the body is `remove_data=1` exactly when data is to be removed, and `remove_data=0` exactly when it is not |
| `Service.TriblerService.constructor` | src/app/shared/tribler.service.ts:18-24 | a new service has no search results and no published query |
| `Service.TriblerService.AddType` | src/app/shared/tribler.service.ts:26-31 | after the loop, the array holds the tagged copy of its old contents (length, order and other attributes kept) |
| `Service.TriblerService.StartDownloadBody` | src/app/shared/tribler.service.ts:87-91 | the body built by appending one parameter per file equals the start-download body of the inputs |
| `Service.TriblerService.Search` | src/app/shared/tribler.service.ts:139-145 | afterwards the result list is empty and the latest query, the one a new subscriber receives, is the term; the store invariant is kept |
| `Service.TriblerService.ProcessEvent` | src/app/shared/tribler.service.ts:164-191 | channel result: the list becomes the old list plus the channel tagged `channel` at the end if its `torrents` > 0, otherwise unchanged, with no re-sort. Torrent result: the list grows by one, is a permutation of the old list plus the torrent tagged `torrent`, and is sorted by non-increasing score. Any other type: the list is unchanged. The query is never touched. Every record in the list stays a tagged torrent or a tagged channel with torrents |

## Findings

| source | as written | input that shows it | evidently intended | confidence | as-written member | corrected member |
|---|---|---|---|---|---|---|
| src/app/shared/tribler.service.ts:88 | the destination, URI and file names go into the form body unescaped | the play action's magnet link `magnet:?xt=urn:btih:<ih>&dn=<name>` (src/app/list/torrent-list-item.component.ts:46): the body reads back as five fields, and `dn=<name>` is no longer part of `uri` | each value escaped, as the service does with `encodeURIComponent` at lines 135 and 150, so that the body reads back as one field per parameter | medium; not executed | `RequestBodies.PlayBodyFields` | `RequestBodies.EscapedDownloadBodyFields` |

`Service.TriblerService.StartDownloadBody` models the code as written. The
corrected body is `RequestBodies.EscapedDownloadBody`, for which
`EscapedDownloadBodyFields` proves the intended field reading.

## Left out

- REST wrappers: every method that only issues an HTTP call and selects a field of the JSON reply (random torrents, channels, subscriptions, downloads, torrent info, my channel, trust-chain statistics and blocks, search completions, stop and resume). None has local logic. The HTTP calls of `search`, `startDownload` and `removeDownload` are left out too; only their state changes and request bodies are modelled.
- URL construction for these calls (string concatenation onto the API base) is not modelled.
- `getEvents`: EventSource creation, message and error wiring, JSON parsing and teardown are I/O. `ProcessEvent` takes already-parsed events.
- The 15-second timeout of the health lookup is timer-based asynchronous behaviour.
- RxJS: the `ReplaySubject` and Observable laziness are reduced to the `lastQuery` field.
- Floating-point scores: `relevance_score` is an integer here. The comparator's behaviour on NaN or missing scores is not modelled.
- Hop counts that are not integers, or of magnitude 10^21 or more (which JavaScript writes in exponent form): `${hops}` is modelled as the plain decimal numeral of an integer.
- `RequestBodies.Escape` escapes only `&` and `%`, the two characters that matter for reading fields back; it is not the whole of `encodeURIComponent`.
- Object identity and aliasing: records are values, so the model does not capture that the stamped `type` is visible through other references to the same object.
- `console.log` calls, and the event subscription started in the constructor.
- The downloads component's 2-second poll and the torrent list item's click and health handlers are UI and timing glue. `addStreamingEvent` is not part of this model.
- SearchResults.SortByRelevance: promises nothing about the relative order of records with equal scores, because that order depends on the JavaScript engine's sort.
- Service.TriblerService.ProcessEvent: for a torrent result it states sortedness and the permutation but not the order among equal scores, for the same reason.
