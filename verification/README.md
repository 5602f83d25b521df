# besinveri core, modelled in Dafny

besinveri is a small Turkish food-data HTTP API. It loads JSON food fixtures into SQLite at start-up, then serves food lookups, a ranked description search, an endpoint directory and JSON error bodies, all behind a response cache. This project models the decision logic of that service as pure functions over immutable data and proves properties about them:

- **Search** (`search.dfy`): the relevance score of a description for a query, the ranking of matching foods by score, and the mode gate of the search handler.
- **Response cache** (`cache.dfy`): the lifetime chosen from the request path, and one pass of the middleware over a `url → body` store: hit, passed-through miss, stored miss, and a 500 for a body that is not UTF-8.
- **Store and ingestion** (`database.dfy`):
  - `food_exists_by_description`, `insert_food` and the loading loop of `connect`.
  - These operate over an in-memory relational store. It has the `foods` rows, the source, image, tag, allergen and serving-description lookup tables, and the three join tables.
  - A failing SQL statement is modelled by a fault parameter naming the statement that fails.
- **Kebab case** (`kebab.dfy`): `to_kebab_case`.
- **Endpoint directory** (`endpoints.dfy`): the `BTreeMap` built by `get_endpoints`, as a key-ordered association list.
- **Error envelope** (`api_error.dfy`): `APIError::new`, `into_response`, `Display`, `not_found_handler` and `handle_axum_rejections`.

Supporting modules model the library behaviour the core relies on:

- `text.dfy`: Rust's `to_lowercase` and SQLite's ASCII-only `LOWER`, prefix and substring search, and decimal rendering.
- `utf8.dfy`: UTF-8 encoding and `std::str::from_utf8`, with both round trips proved. Rust measures lengths and `find` positions in these bytes.
- `json.dfy`: serde_json's string escaping and a reader for it.
- `http.dfy`: responses, headers and status classes.
- `sorting.dfy`: descending order by a key, with insertion sort as one admissible outcome of `sort_unstable_by`.
- `food.dfy`: the `Food` record.
- `wrappers.dfy`: `Option` and `Result`.

Floating-point values (nutrients and serving weights) are carried as their 32-bit patterns and never computed with.

Behaviour of the code worth noting:

- The search sorts with `sort_unstable_by`, so equal scores may come out in either order.
- For the query "ka", Karpuz (20), Makarna (7) and Portakal (3) rank in that order. Portakal's first "ka" is at byte 5 of 8, so it scores 10·3/8 = 3.
- `insert_food` stores no slug.
- Tags and allergens are lowered by SQLite's `LOWER()`, which only folds ASCII letters; serving names are stored verbatim. "SÜT" and "süt" therefore become two tag rows; case variants collapse into one row only when they differ in ASCII letters.
- `to_kebab_case` does no diacritic folding: "Çay  Kahve" becomes "çay-kahve".
- A missing `verified` is stored as false, but the returned `Food` keeps the input's `None`.
- The endpoint directory advertises `q=` and `mode={description, tag}`. The handler reads `query` and refuses the mode `tag` with 400.

## Model

| member | source | states |
|---|---|---|
| Search.Score | src/api/search.rs:41-59 | a description scores exactly when its lowercase form contains the lowercase query; it scores 20 iff the query is a prefix; any other score is at most 9 |
| Search.FirstOccurrenceScore | src/api/search.rs:53-56 | a non-prefix match scores 10·(L−p)/max(L,1), where p is the byte offset of the first occurrence and L the byte length of the lowercase description |
| Search.NonPrefixBelowTen | src/api/search.rs:53-56 | a match that is not at the start scores at most 9, so it ranks below every prefix match |
| Search.PositionScoreAntitone | src/api/search.rs:55 | for a fixed length, a later first occurrence never scores higher |
| Search.EmptyQueryScoresTwenty | src/api/search.rs:35-49 | the empty query is a prefix of everything, so every food scores 20 |
| Search.Matching | src/api/search.rs:38-61 | the filter keeps exactly the input foods that contain the query, each as many times as the input holds it, and no more foods than the input has |
| Search.SortFoodsByRelevance | src/api/search.rs:34-71 | the result is a ranking: a permutation of the matching foods with scores non-increasing |
| Search.RankingShape | src/api/search.rs:38-70 | every ranking holds exactly the matching foods, is no longer than the input, and puts every prefix match before every non-prefix match |
| Search.TiesMayComeEitherWay | src/api/search.rs:64 | two foods with equal scores may come out in either order, so no tie order is promised |
| Search.RankingScoresDetermined | src/api/search.rs:64 | any two admissible outputs for one input carry the same score at every position |
| Search.WorkedExample | src/api/search.rs:45-56 | for the query "ka", Karpuz scores 20, Makarna 7 and Portakal 3; the only admissible output over Karpuz, Portakal, Makarna is Karpuz, Makarna, Portakal |
| Search.SearchFoodHandler | src/api/search.rs:18-32 | a mode other than "description" or "name" (ignoring case) gives 400 "Geçersiz sorgu!"; a failed lookup gives 404; otherwise the answer is a ranking of the looked-up foods |
| Search.ModeExamples | src/api/search.rs:22 | "NAME" passes the gate; "tag" does not; "DESCRİPTİON" does not either, because Rust lowers the dotted capital İ to two characters |
| Cache.TtlSeconds | src/api/cache.rs:17-22 | "/api" and "/api/foods" live for u64::MAX seconds, "/api/health" 600, any other path starting "/api/food" 28800, everything else 3600; each iff its condition, with the arms tried in order |
| Cache.TtlExamples | src/api/cache.rs:17-22 | "/api/foods/list" and "/api/food/elma" get the food lifetime; "/api/status" gets the default |
| Cache.KeyInjective | src/api/cache.rs:16 | for paths without '?', two URIs share a cache key iff they are equal, so URIs differing only in their query are separate entries |
| Cache.Cached | src/api/cache.rs:27-32 | a response built from stored text is 200, JSON, carries that text's bytes and advertises the path's lifetime in Cache-Control |
| Cache.Middleware | src/api/cache.rs:16-62 | a hit answers 200 from the store and leaves it alone; a miss with a non-200 passes through unstored; a 200 whose body stream fails while it is collected, or whose body is not UTF-8, gives 500 and stores nothing; any other 200 is stored under the key and answered with the same bytes as JSON |
| Cache.MiddlewareTouchesOneKey | src/api/cache.rs:51 | no entry other than the request's own key is added, removed or changed |
| Cache.HitRepeatsMiss | src/api/cache.rs:26-61 | asking again after a stored miss gives the same response and leaves the store as it was, whether or not a body read would fail |
| Cache.EvictedEntryReturns | src/api/cache.rs:24-51 | after the entry expires or is evicted, the handler is consulted again, the same response comes back, and the entry is restored |
| Cache.ErrorsAreNotCached | src/api/cache.rs:39-42 | a non-200 response never enters the store |
| Cache.FailedReadRetried | src/api/cache.rs:44-46 | a 200 whose body cannot be collected is answered with a bare 500 and nothing is stored, so the next request runs the handler again and can be stored |
| Cache.Evict | src/api/cache.rs:25 | expiry or eviction removes exactly the given keys and leaves the other entries unchanged |
| Utf8.DecodeEncode | src/api/cache.rs:47-49 | the bytes of any string pass the UTF-8 check and give that string back |
| Utf8.EncodeDecode | src/api/cache.rs:47-49 | bytes that pass the UTF-8 check are exactly the encoding of the text they yield, so a stored body is served byte for byte |
| Utf8.DecodeRejects | src/api/cache.rs:47-49 | a lone continuation byte, 0xFF, an overlong encoding and a surrogate are refused |
| Kebab.ToKebabCase | src/core/str.rs:1-6 | the result has no whitespace and is all lowercase |
| Kebab.KebabEmptyIffBlank | src/core/str.rs:2-5 | the result is empty iff the input is empty or all whitespace |
| Kebab.KebabDashes | src/core/str.rs:3-5 | for input without '-', dashes appear only between words, never leading, trailing or doubled, and there is one fewer of them than there are words |
| Kebab.KebabCollapsesWhitespace | src/core/str.rs:3 | any two non-empty whitespace runs between the same text give the same result |
| Kebab.KebabIdempotent | src/core/str.rs:1-6 | applying the conversion twice gives what applying it once gives |
| Kebab.KebabExample | src/core/str.rs:1-6 | "Çay  Kahve" becomes "çay-kahve": the diacritic is lowered, not folded |
| Text.LowerIdempotent | src/core/str.rs:2 | lowering a lowered string changes nothing |
| Text.AsciiLower | src/api/database.rs:150 | SQLite's LOWER changes only the letters A–Z, each to its lowercase letter, and keeps the length |
| Text.AsciiLowerIdempotent | src/api/database.rs:150-155 | lowering a stored tag again gives the same text, so the SELECT finds the row the INSERT wrote |
| Endpoints.Insert | src/api/endpoints.rs:6-20 | inserting into a key-ordered map keeps it ordered, adds the key, maps it to the new value and leaves every other key's value as it was |
| Endpoints.InsertOrderIrrelevant | src/api/endpoints.rs:6-20 | inserting two different keys in either order gives the same map |
| Endpoints.AscendingUnique | src/api/endpoints.rs:6 | two key-ordered maps with the same lookups are the same sequence, so iteration order is determined by contents |
| Endpoints.GetEndpoints | src/api/endpoints.rs:5-23 | the directory iterates in strictly ascending key order |
| Endpoints.EndpointsOrder | src/api/endpoints.rs:5-23 | the directory is exactly the health, food, list and search entries in that alphabetical order, each with value base + "/" + its fixed suffix |
| Endpoints.EndpointsLookup | src/api/endpoints.rs:8-19 | the four keys and only those are present; health maps to base + "/health", list to base + "/foods/list", food to base + "/food/{slug}", search to the search template |
| Json.ReadEscaped | src/api/error.rs:36 | serde_json's escaping of any string reads back as that string, with the closing quote and whatever follows left over |
| ApiErrors.New | src/api/error.rs:16-21 | an error built from a valid status carries that status code and the message unchanged |
| ApiErrors.ResponseStatus | src/api/error.rs:30-33 | a code in 100..999 is used as the status; any other code falls back to 500 |
| ApiErrors.IntoResponse | src/api/error.rs:28-56 | the response has the status given by ResponseStatus, is JSON, and its body is valid UTF-8 of the serialized error |
| ApiErrors.ParseBodyOfBody | src/api/error.rs:36 | the serialized body `{"code":…,"message":…}` parses back to the same error |
| ApiErrors.BodyInjective | src/api/error.rs:36 | two errors serialize to the same body iff they are equal |
| ApiErrors.ResponseCarriesError | src/api/error.rs:28-56 | a client can recover the exact code and message from any error response |
| ApiErrors.Display | src/api/error.rs:58-62 | the rendering starts with the message and ends with a closing parenthesis |
| ApiErrors.DisplayCodeReadBack | src/api/error.rs:58-62 | after the message comes " (Kod: ", then the code's decimal digits, which read back to the code, then ")" |
| ApiErrors.DisplayShowsCode | src/api/error.rs:58-62 | two errors with the same message display alike iff their codes are equal |
| ApiErrors.NotFound | src/api/error.rs:23-25 | the not-found error has a valid status code |
| ApiErrors.NotFoundResponse | src/api/error.rs:23-25 | an unknown route answers 404 with JSON whose body parses to code 404 and "İstenen API endpoint'i bulunamadı" |
| ApiErrors.HandleRejections | src/api/error.rs:65-94 | the status never changes; the response either passes through untouched or is a non-JSON 4xx/5xx rewritten as JSON |
| ApiErrors.RejectionOutcome | src/api/error.rs:65-94 | the status is kept; a JSON response or a status below 400 or above 599 passes unchanged; a non-JSON 4xx becomes a JSON error "İstemci Hatası: " + reason; a non-JSON 5xx becomes a JSON error "Sunucu Hatası: " + reason; "Tanımsız Davranış" stands in when there is no reason phrase |
| ApiErrors.RejectionsIdempotent | src/api/error.rs:65-94 | the handler's rewrites are JSON, so running it twice is running it once |
| Database.Intern | src/api/database.rs:79-97 | `INSERT OR IGNORE` then `SELECT id`: the id names a row holding the text; a present text leaves the table alone, an absent one is appended; the table keeps no duplicates |
| Database.InternTwice | src/api/database.rs:79-97 | interning a text a second time changes nothing and returns the same id |
| Database.LinkAll | src/api/database.rs:149-187 | every tag or allergen is linked to the food through a row holding its lowercase form; new rows and new links come only from the food's own lowercased texts; existing rows and links stay |
| Database.AddServings | src/api/database.rs:191-209 | every serving name is linked to the food through a row holding that name verbatim; a new serving row carries the weight of a serving of that name; existing rows keep their weights |
| Database.FoodExistsByDescription | src/api/database.rs:60-65 | true iff some stored food has exactly that description |
| Database.InsertFood | src/api/database.rs:67-219 | a stored description is refused with the store unchanged; a failing statement aborts with the store unchanged; otherwise the food is added under the next id and returned as given with that id; every outcome only adds: each table keeps its rows under their ids, every link stays, and every serving row keeps its weight (`Keeps`) |
| Database.DuplicateRefused | src/api/database.rs:69-74 | a food whose description is already stored is refused and nothing is written |
| Database.InsertedRow | src/api/database.rs:107-144 | the new row holds the description, `verified` defaulting to false, the ids of rows holding its image URL and its source, and the 22 bound nutrients |
| Database.InsertedLinks | src/api/database.rs:149-187 | the new food is linked to the lowercase form of each of its tags and allergens and to nothing else; other foods' links are unchanged |
| Database.InsertedServings | src/api/database.rs:191-209 | the new food has a serving row for every serving name, each holding the weight of a serving of that name, and no other; other foods' serving rows are exactly the old ones, with their old weights |
| Database.InsertedServingWeights | src/api/database.rs:191-209 | with distinct serving names, each serving is stored with its own weight |
| Database.FiberNotStored | src/api/database.rs:109-143 | the fiber value never reaches the store: two foods differing only in fiber leave the same store |
| Database.CaseVariantsCollapse | src/api/database.rs:149-167 | two tags that SQLite lowers alike give one tag row and one link |
| Database.TagCaseVariantsCollapse | src/api/database.rs:149-167 | a food tagged "Vegan" and "VEGAN" leaves the same store as one tagged "Vegan" alone |
| Database.StageWellFormed | src/api/database.rs:76-212 | a complete insert of a new description keeps the store well formed: no duplicate lookup texts or descriptions, no dangling ids, tags and allergens lowercase |
| Database.InsertFoodWellFormed | src/api/database.rs:67-219 | every insert, whatever its outcome, keeps the store well formed |
| Database.ExistsAfterInsert | src/api/database.rs:60-74 | after a fault-free insert, a description exists iff it existed before or is the inserted food's |
| Database.Ingest | src/api/database.rs:27-55 | every loaded food is offered in order and failures are skipped; only an injected fault makes a statement fail; a stored food comes back as given with an id; each food is present afterwards unless its own insert failed; one row is added per success; nothing stored before is removed or changed (`Keeps`) |
| Database.IngestWellFormed | src/api/database.rs:27-55 | the loading loop keeps the store well formed |
| Database.IngestPresentIsNoOp | src/api/database.rs:27-55 | offering foods that are all stored already changes nothing, and every insert fails |
| Database.IngestStoresAll | src/api/database.rs:27-55 | without faults, every offered food is stored afterwards |
| Database.IngestTwice | src/api/database.rs:27-55 | loading the same foods again into the result of a clean load changes nothing, whatever fails the second time |
| Database.IngestOutcomes | src/api/database.rs:27-74 | without faults, the j-th insert succeeds iff its description is neither stored already nor offered earlier in the run |
| Database.Connect | src/api/database.rs:27-57 | a failed load leaves the store alone; every outcome only adds: each table keeps its rows under their ids, every link stays, every serving row keeps its weight (`Keeps`); without faults every loaded food is stored afterwards |
| Database.ConnectWellFormed | src/api/database.rs:27-57 | start-up keeps the store well formed |
| Database.ConnectTwice | src/api/database.rs:27-57 | restarting over the store a clean start produced adds nothing |

## Left out

- File system, connection pool and migrations in `connect`, and the reading of fixture files by `load_foods_from_jsons`. These are I/O. The loaded foods, or the load error, are an input to `Connect`.
- The schema. It lives in migrations that are not part of this model. The model assumes what the `INSERT OR IGNORE` statements rely on: each lookup table's text column and each join pair are unique, and new rows get the next id.
- `search_food_by_description_wild`. It is not part of this model, so the search handler takes it as a `lookup` parameter. The `limit` is passed through to it and is not otherwise interpreted.
- The canonical reason phrases of the `http` crate. They come in as a `reason` parameter of the rejection handler.
- The order in which the application stacks its middlewares. It is not shown, so the cache and the rejection handler are modelled separately.
- Failures of the handler's body stream. They cannot be seen from the model, so `Cache.Middleware` takes whether collecting the body fails as a `readFails` parameter.
- The cache library's expiry policy and concurrent misses on the same key. Expiry and eviction are `Evict`, an arbitrary removal of keys. Concurrency is out of scope.
- `into_response`'s fallback for a serde failure. Serializing a `u16` and a `String` cannot fail, so the branch is dead.
- Ids are unbounded naturals. The source's `i32` ids and their `u32` cast are not modelled, because a store would need 2^31 foods to overflow them.
- Floating-point nutrient and weight values. They are kept as opaque bit patterns.
- HTTP header multi-values and header-name case rules. Headers are a map from lowercase name to one value.
- Text.Lower: follows Rust's `to_lowercase` for ASCII, Latin-1 Supplement and Latin Extended-A, including İ → "i" + U+0307. Other scripts are left unchanged, so a contract about lowering is weaker outside those blocks.
- Json.ReadString: reads the escapes serde_json writes plus `\/`, and refuses `\u` escapes of surrogate halves. The pairs that encode characters above U+FFFF are not read.
- `src/api/status.rs`, `src/core/config.rs`, `src/api/security.rs`, `src/main.rs`, `src/api/foods.rs` and the `scripts/` clients are not part of this model. They hold clock and timezone formatting, configuration file I/O, constant security headers, runtime wiring, a stub handler, and live HTTP tests.
