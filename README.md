# Live visitors, blog posts and `.env` reader, in Dafny

This project models the non-UI logic of a personal web site and proves
properties of it:

- **The live-visitor hook** (`src/hooks/useLiveViewers.ts`). It keeps three
  values for the page:
  - `liveCount`: the number of live `visitor:*` markers at the last
    successful heartbeat, and at least 1.
  - `totalVisits`: the `total_visits` counter, which rises once for each
    session whose country became known.
  - `topCountries`: the three countries with the most visits.

  It keeps them up to date against a shared Redis-style key-value store,
  using three kinds of key:
  - `visitor:<id>`: a presence marker that lives for 30 seconds and is renewed
    every 20.
  - `total_visits`: a counter.
  - `country:<code>`: one counter per country.

  A tab's session storage remembers three things: the visitor id, a
  "has visited" flag and the cached country.
- **The post loader** (`src/lib/posts.ts`). It works out each Markdown file's
  slug from its path, splits off the `---`-fenced header, parses its
  `key: value` lines and fills in defaults. It then sorts the posts newest
  first and finds a post by slug.
- **The `.env` reader** of the token helper (`get_token.js:9-16`). It splits
  the file into lines, keeps `KEY=value` lines and builds a dictionary.

## Layout

| file | module | contents |
|---|---|---|
| `wrappers.dfy` | `Wrappers` | `Option` (null / undefined), `Min` |
| `text.dfy` | `Text` | The JavaScript string built-ins the code relies on: `split`/`join` on one character, `trim`, `replace` of the first literal match, `toUpperCase` (ASCII), `String(n)`; with their round-trip lemmas. `IndexOf` and `StartsWith` stand for the lazy search and the start anchor of the front-matter regular expression and for the prefix pattern of `KEYS` |
| `sorting.dfy` | `Sorting` | `Array.prototype.sort` with a descending numeric comparator. It is a stable sort, with insertion sort as the reference definition. A uniqueness lemma shows that every stable descending sort gives the same result. |
| `dict.dfy` | `Dict` | A JavaScript object written one key at a time, as a left fold of optional assignments. It has domain and last-write-wins lemmas. |
| `store.dfy` | `KeyValueStore` | The in-memory store: `GET`, `SETEX`, `INCR` and `KEYS prefix*`, with expiry against an explicit clock. The `Store` class holds the contents and the clock. Each command takes a `Fault` for its round trip. |
| `live_viewers.dfy` | `LiveViewers` | The flag mapping, and the session-storage steps as functions. The class `LiveViewers` holds the session storage and the three state cells; its methods are the hook's procedures. |
| `posts.dfy` | `Posts` | Slug, frontmatter split, metadata lines, defaults, the date sort, `getPosts`, `getPost` |
| `env_config.dfy` | `EnvConfig` | The line parser and the `reduce` that builds the configuration |

### How the environment enters

- **Store failures.** Each procedure takes `faults: seq<Fault>`, which gives
  the fate of each store command it issues, in order.
  - `NoFault`: the command succeeds.
  - `RequestLost`: the store never sees the command.
  - `ReplyLost`: the store executes the command, but the caller gets an error.

  Commands past the end of the sequence succeed.
- **The network round trip.** A command that meets a fault ends the procedure
  the way a thrown `fetch` error reaches the `catch`.
- **The geolocation lookup.** Its answer is a `GeoReply`: either a failure, or
  the `country_code` text, where `""` stands for a missing code.
- **`Date.now()` and the random part of a new visitor id** are parameters.
- **The store's clock** is `Store.now`, in seconds. `Store.Tick` advances it.
  The clock stands still within one procedure: all the commands of one
  `Init` or `Heartbeat` are evaluated at the same time, so a marker cannot
  expire between the `SETEX` and the `KEYS` of one heartbeat.
- **The post files** arrive as a sequence of (path, text) pairs.
- **Post dates** are ranked through a function `dateKey: string -> int`, which
  stands for `new Date(d).getTime()`.

### Behaviour worth noting

- **Counting needs a known country.** The test is `country && isNewVisit()`
  (`src/hooks/useLiveViewers.ts:94`). With no country, nothing is counted
  and the first-visit flag is not even read, so it stays unset for a later
  `init`. The total is then only read with `GET`. `CountedCountry` captures
  this, and so do `FirstKnownCountryCounts` and `CountedAtMostOnce`.
- **A command that throws keeps the old value.** `redisCommand`
  (`:62-72`) throws only when the request fails or the reply is not JSON.
  Then the `catch` leaves `liveCount`, `totalVisits` and `topCountries` as
  they were. The model's `Fault`s are exactly these thrown failures. A reply
  that is JSON but carries an error object does not throw: the heartbeat
  then shows 1 through `keysResult.result?.length || 1` (`:150`). Such
  replies are not modelled (see "Unreliable-network details" below).
- **`topCountries` starts as `[]`, not null** (`:79`). A store that is never
  reachable leaves it `[]`.
- **Ties in the ranking keep `KEYS` order.** The sort is stable
  (`:133`), so countries with equal counts keep the order in which `KEYS`
  listed them. Redis itself leaves that order unspecified; the model lists
  keys in the order of their first write.

## Model

| member | source | states |
|---|---|---|
| Text.Trim | src/lib/posts.ts:30 | `trim` keeps a middle slice of its input: no whitespace at either end of the result, and only whitespace in what was cut after it |
| Text.TrimPadded | src/lib/posts.ts:30 | a text that neither starts nor ends with whitespace comes back unchanged from `trim`, whatever whitespace surrounds it |
| Text.TrimIdempotent | get_token.js:14 | trimming twice equals trimming once |
| Text.Split | src/lib/posts.ts:28 | `split` on one character gives at least one piece, and no piece contains the separator |
| Text.Join | src/lib/posts.ts:30 | a join of at least one piece starts with the first piece |
| Text.JoinSeparators | src/lib/posts.ts:30 | joining pieces that hold no separator puts exactly one separator between each two neighbours, so `n` pieces give `n - 1` separators |
| Text.JoinSplit | src/lib/posts.ts:30 | joining the pieces of a split with the same separator gives back the text |
| Text.SplitJoin | src/lib/posts.ts:28-30 | splitting a join of separator-free pieces gives back the pieces |
| Text.SplitAtFirst | get_token.js:13 | `split` cuts at the first separator and splits the rest again; with no separator the result is the text alone |
| Text.JoinAfterFirst | src/lib/posts.ts:28-30 | the first piece is the text before the first separator, and the other pieces rejoin into exactly the text after it |
| Text.IndexOfChar | get_token.js:13 | the position of the first occurrence of a character, or the length when there is none |
| Text.BeforeFirst | get_token.js:13 | the text before the first occurrence of a character does not contain it |
| Text.TrimOmits | get_token.js:14 | `trim` adds no character: one absent from its input is absent from its result |
| Text.FirstOccurrence | get_token.js:13 | in `a + c + b` with no `c` in `a`, the first `c` is at `|a|`; the text before it is `a` and the text after it is `b` |
| Text.SecondField | get_token.js:13 | the first piece of a split is the text before the first separator; there is a second piece exactly when the separator occurs, and it is the text from there to the next separator or the end |
| Text.IndexOf | src/lib/posts.ts:21 | the first position where a pattern occurs, or none when it occurs nowhere |
| Text.RemoveFirst | src/hooks/useLiveViewers.ts:124 | `replace(pat, "")` leaves a text without the pattern unchanged, and otherwise cuts exactly the pattern's first occurrence; it never lengthens its input and introduces no new characters |
| Text.RemoveFirstOfPrefix | src/hooks/useLiveViewers.ts:124 | on a key that starts with the prefix, the replace cuts exactly that prefix |
| Text.ToUpperAscii | src/hooks/useLiveViewers.ts:53 | same length, and each character is upper-cased |
| Text.DecimalString | src/hooks/useLiveViewers.ts:14 | the decimal form of a number is non-empty and all digits, the digits denote the number, and there is no leading zero except in "0" |
| Sorting.SortDescCorrect | src/hooks/useLiveViewers.ts:133 | the descending sort returns a sorted permutation that keeps the relative order of equal keys |
| Sorting.StableSortUnique | src/lib/posts.ts:44-46 | two sorted sequences that agree on the order within every key are equal, so a stable descending sort has exactly one possible result |
| Dict.ApplyEachStep | get_token.js:12-16 | handling one more line applies that line's write to the dictionary built so far |
| Dict.ApplyEachDomain | get_token.js:12-16 | after the line-by-line writes, a key is present exactly when some line wrote it |
| Dict.ApplyEachLastWins | src/lib/posts.ts:27-32 | a key's value is the one its last write gave it |
| KeyValueStore.Db.Counter | src/hooks/useLiveViewers.ts:100 | a key read as a counter is its live value, or 0 when it is missing or expired |
| KeyValueStore.Db.Get | src/hooks/useLiveViewers.ts:99 | `GET` answers a value exactly when the key exists and has not expired |
| KeyValueStore.Db.SetEx | src/hooks/useLiveViewers.ts:143 | `SETEX` makes the key read its value from now until `now + ttl` and read nothing from then on; every other key reads as before; the store invariant is kept |
| KeyValueStore.Db.Incr | src/hooks/useLiveViewers.ts:95-96 | after `INCR` the key reads one more than its counter did before (0 for a missing key); a missing key is created at 1 and never expires; a live key keeps its expiry, reading its old value plus one until then and nothing after; every other key reads as before; the invariant is kept |
| KeyValueStore.Db.Matching | src/hooks/useLiveViewers.ts:146-149 | `KEYS prefix*` lists exactly the live keys with the prefix, without repetition |
| KeyValueStore.Db.Keys | src/hooks/useLiveViewers.ts:112 | in a valid store, `KEYS prefix*` lists each live key with the prefix, once, and nothing else |
| KeyValueStore.MatchingStep | src/hooks/useLiveViewers.ts:112 | scanning one more key appends it exactly when it is live and has the prefix |
| KeyValueStore.KeysCountLiveKeys | src/hooks/useLiveViewers.ts:150 | in a valid store, the length of the `KEYS` answer is the number of live keys with the prefix |
| KeyValueStore.KeysIgnoreOtherWrites | src/hooks/useLiveViewers.ts:112 | a write to one key outside the prefix leaves the `KEYS prefix*` answer unchanged |
| KeyValueStore.Store.constructor | src/hooks/useLiveViewers.ts:62-72 | a new store is empty at the given time |
| KeyValueStore.Store.Get | src/hooks/useLiveViewers.ts:99 | the reply is the key's live value, or an error when the round trip fails |
| KeyValueStore.Store.SetEx | src/hooks/useLiveViewers.ts:143 | the store becomes its `SETEX` image unless the request was lost; the reply is an error unless nothing failed |
| KeyValueStore.Store.Incr | src/hooks/useLiveViewers.ts:95-96 | the store becomes its `INCR` image unless the request was lost; the reply is the new counter value when nothing failed |
| KeyValueStore.Store.Keys | src/hooks/useLiveViewers.ts:146-150 | the scan returns the store's `KEYS prefix*` answer; its length is the number of live keys with the prefix |
| LiveViewers.CountryCodeToFlag | src/hooks/useLiveViewers.ts:47-56 | input of any length other than 2 (including empty) is returned unchanged; a two-character code gives two code points |
| LiveViewers.FlagOfLetters | src/hooks/useLiveViewers.ts:52-56 | a two-letter code becomes a pair of regional indicator symbols that reads back as the upper-cased code |
| LiveViewers.FlagIgnoresCase | src/hooks/useLiveViewers.ts:52-55 | two codes of length 2 that agree up to case get the same flag |
| LiveViewers.FlagDistinguishes | src/hooks/useLiveViewers.ts:52-56 | two-letter codes with the same flag are the same code up to case |
| LiveViewers.FreshVisitorId | src/hooks/useLiveViewers.ts:14 | a fresh id is non-empty and starts with the clock's decimal digits and a dash |
| LiveViewers.VisitorIdFor | src/hooks/useLiveViewers.ts:11-17 | the id is the stored one when one is stored, and otherwise the fresh id built from the clock and the random suffix; it is never empty |
| LiveViewers.VisitorIdStable | src/hooks/useLiveViewers.ts:11-17 | once an id is stored, every later call returns it and stores nothing new, whatever the clock and the random source give |
| LiveViewers.SessionAfterVisitCheck | src/hooks/useLiveViewers.ts:20-27 | after the check `has_visited` is set; a session that had it is unchanged; no other item changes |
| LiveViewers.ResolveCountry | src/hooks/useLiveViewers.ts:29-45 | a cached country is returned without regard to the lookup; otherwise a country is returned exactly when the lookup gave a non-empty code, and it is that code |
| LiveViewers.SessionAfterLookup | src/hooks/useLiveViewers.ts:29-45 | a resolved country ends up cached; a failed or empty lookup leaves the session unchanged; no other item changes |
| LiveViewers.CountryCacheSticky | src/hooks/useLiveViewers.ts:31-32 | once a country is cached, later lookups return it and change nothing, whatever the service answers |
| LiveViewers.CountedCountry | src/hooks/useLiveViewers.ts:93-94 | `init` counts a visit exactly when a country is known and the session has not visited yet, and counts it under that country |
| LiveViewers.SessionAfterInit | src/hooks/useLiveViewers.ts:93-94 | after `init`, `has_visited` is set exactly when it was already set or a country is known; a resolved country is cached; every other item is unchanged; without a known country the storage is exactly as before |
| LiveViewers.VisitedPersists | src/hooks/useLiveViewers.ts:20-27 | once `has_visited` is set it stays set through every later `init` |
| LiveViewers.CountedAtMostOnce | src/hooks/useLiveViewers.ts:94 | over any series of `init` runs in one session, at most one counts a visit |
| LiveViewers.FirstKnownCountryCounts | src/hooks/useLiveViewers.ts:94 | in a session that has not counted yet, the first `init` that knows the country counts the visit |
| LiveViewers.Drop | src/hooks/useLiveViewers.ts:104 | the fates left for the later commands are those of the original sequence, shifted |
| LiveViewers.RecordVisitCountryFirst | src/hooks/useLiveViewers.ts:95-96 | the country `INCR` comes first: when it reaches the store the country key ends as that one `INCR` leaves it, whatever happens to the second command; when it is lost the store is untouched |
| LiveViewers.RecordVisitTotalSecond | src/hooks/useLiveViewers.ts:95-97 | the total `INCR` follows a successful country `INCR`: when it reaches the store `total_visits` ends as that one `INCR` leaves it, and when it is lost the total is untouched |
| LiveViewers.RecordVisit | src/hooks/useLiveViewers.ts:93-100 | a counted visit adds exactly 1 to `country:<c>` and then exactly 1 to `total_visits`; a failed first `INCR` leaves the total alone; without a count the store is untouched and the shown total is the counter (0 when missing); a shown total always equals the stored counter; no counter falls or rises by more than 1; no other key changes |
| LiveViewers.TopThree | src/hooks/useLiveViewers.ts:133-134 | the ranking has `min(3, n)` entries in non-increasing order of count |
| LiveViewers.TopThreeIsTop | src/hooks/useLiveViewers.ts:133-134 | the ranking's entries come from the input, and nothing left out has a higher count than anything shown |
| LiveViewers.TopThreeOfStableSort | src/hooks/useLiveViewers.ts:133-134 | the ranking is the first three of any stable descending sort of the entries, so ties keep `KEYS` order |
| LiveViewers.TopCountriesOutcome | src/hooks/useLiveViewers.ts:110-138 | a ranking is set exactly when `KEYS` and every `GET` after it succeed, and it is then the first three, by stable descending count, of the entries built for the listed keys in `KEYS` order; it has at most 3 entries in non-increasing order; with no country keys it is `[]` |
| LiveViewers.TopCountriesWhenDelivered | src/hooks/useLiveViewers.ts:110-138 | in a valid store with every command delivered, the ranking is set, has as many entries as there are live `country:*` keys up to three, and no live country key left out has a higher count than an entry shown |
| LiveViewers.StatsFor | src/hooks/useLiveViewers.ts:123-129 | the entry built for a key carries the key's count and the flag of its code; for a `country:<code>` key the code is what follows the prefix and rebuilds the key |
| LiveViewers.StatsOf | src/hooks/useLiveViewers.ts:122-129 | one entry per listed key, in the order `KEYS` listed them, each the entry built for that key |
| LiveViewers.TopCountriesFromLiveKeys | src/hooks/useLiveViewers.ts:122-129 | every entry shown belongs to a live `country:<code>` key, with the code, and that code's flag and count |
| LiveViewers.TopThreeExample | src/hooks/useLiveViewers.ts:133-134 | counts 10, 7, 7, 2 listed in that order rank as the first three |
| LiveViewers.TopThreeTieExample | src/hooks/useLiveViewers.ts:133-134 | listed in the opposite order, the two sevens also swap places in the ranking |
| LiveViewers.ShownLiveCount | src/hooks/useLiveViewers.ts:150 | the shown live count is at least 1, equals the number of markers listed when there are any, and is 1 when there are none |
| LiveViewers.FirstHeartbeatExample | src/hooks/useLiveViewers.ts:143-151 | into a store with no live markers, a heartbeat leaves exactly its own marker, expiring 30 s later, and shows 1 |
| LiveViewers.CountedVisitExample | src/hooks/useLiveViewers.ts:95-97 | with `total_visits` at 41, a counted visit from "US" stores and shows 42 and adds one to `country:US` |
| LiveViewers.MarkerNeverLapses | src/hooks/useLiveViewers.ts:162 | with heartbeats at most 20 s apart, a 30 s marker is live at every instant from one heartbeat to the next, and for 30 s after the last |
| LiveViewers.MarkerLapsesAfterLongGap | src/hooks/useLiveViewers.ts:9 | after a gap longer than the 30 s lifetime, the marker is gone before the next heartbeat |
| LiveViewers.InitAndHeartbeatDisjoint | src/hooks/useLiveViewers.ts:158-159 | the heartbeat's `SETEX` changes no key and no `KEYS country:*` answer that `init` reads; an `INCR` outside `visitor:*` changes no marker and no `KEYS visitor:*` answer |
| LiveViewers.InitKeysAreNotMarkers | src/hooks/useLiveViewers.ts:6-8 | the counter keys lie outside `visitor:*` |
| LiveViewers.LiveViewers.constructor | src/hooks/useLiveViewers.ts:77-79 | the state cells start as null, null and `[]` |
| LiveViewers.LiveViewers.GenerateVisitorId | src/hooks/useLiveViewers.ts:11-17 | returns the stored id and writes nothing when one is stored; otherwise stores and returns a fresh one |
| LiveViewers.LiveViewers.IsNewVisit | src/hooks/useLiveViewers.ts:20-27 | answers true exactly when `has_visited` was unset, sets it only then, and leaves it set, so every later call answers false |
| LiveViewers.LiveViewers.GetCountryCode | src/hooks/useLiveViewers.ts:29-45 | returns `ResolveCountry` and leaves the session as `SessionAfterLookup` says |
| LiveViewers.LiveViewers.Mount | src/hooks/useLiveViewers.ts:81-88 | without credentials nothing happens; otherwise the visitor id is settled and the marker key is `visitor:<id>` |
| LiveViewers.LiveViewers.CountryCounts | src/hooks/useLiveViewers.ts:121-130 | one `GET` per key in `KEYS` order builds the entry of each key; a failing `GET` ends the loop with nothing |
| LiveViewers.LiveViewers.FetchTopCountries | src/hooks/useLiveViewers.ts:110-138 | `topCountries` becomes the outcome of `KEYS` and the `GET`s, or keeps its old value when a command fails; the cells stay valid |
| LiveViewers.LiveViewers.SettleCountry | src/hooks/useLiveViewers.ts:93-94 | the country lookup, and the first-visit check only when a country is known, count exactly as `CountedCountry` says and leave the session as `SessionAfterInit` says |
| LiveViewers.LiveViewers.RecordVisitOnStore | src/hooks/useLiveViewers.ts:94-101 | the `INCR`s or the `GET` leave the store, the shown total and the number of commands used exactly as `RecordVisit` says |
| LiveViewers.LiveViewers.Init | src/hooks/useLiveViewers.ts:90-108 | the session, the store, `totalVisits` and `topCountries` end as `RecordVisit` and `TopCountriesOutcome` say; after an error the cells keep their old values and the ranking is not refreshed |
| LiveViewers.LiveViewers.Heartbeat | src/hooks/useLiveViewers.ts:140-155 | the marker is written with value 1 and expiry `now + 30` unless the request is lost; when both commands succeed, `liveCount` is the number of live `visitor:*` keys (at least 1, since the marker itself is live); after an error it keeps its old value |
| Posts.LastSegment | src/lib/posts.ts:18 | the last segment of a path contains no `/` |
| Posts.Slug | src/lib/posts.ts:18 | a slug contains no `/` |
| Posts.StripMarkdownExtension | src/lib/posts.ts:18 | on `<name>.md<rest>` with no `.md` inside `name`, the replace removes exactly that extension and keeps `rest` |
| Posts.SlugOfFile | src/lib/posts.ts:18 | the slug of `<dir>/<file>` is `file` with its first `.md` removed |
| Posts.SlugOfPostPath | src/lib/posts.ts:18 | the slug of `<dir>/<name>.md` is `name` |
| Posts.SlugOfDoubledExtension | src/lib/posts.ts:18 | only the first `.md` is removed: the slug of `<dir>/<name>.md.md` is `<name>.md` |
| Posts.SplitFrontmatter | src/lib/posts.ts:21-24 | a file matches exactly when it starts with `---\n` and later contains `\n---\n`; then it is fence, header, delimiter and body, and the header stops at the first delimiter |
| Posts.FrontmatterRoundTrip | src/lib/posts.ts:21-24 | a header without a delimiter, put between the fences, comes back out, and so does any body, verbatim |
| Posts.StripQuotes | src/lib/posts.ts:30 | at most one character is cut at each end, and the kept text is a slice of the input |
| Posts.StripQuotesOfQuoted | src/lib/posts.ts:30 | a quoted value loses exactly its two quotes |
| Posts.StripQuotesOfUnquoted | src/lib/posts.ts:30 | a value without quotes at its ends is unchanged |
| Posts.StripQuotesOfLeading | src/lib/posts.ts:30 | a value with a quote only at the start loses exactly that quote; a lone `"` becomes empty |
| Posts.StripQuotesOfTrailing | src/lib/posts.ts:30 | a value with a quote only at the end loses exactly that quote |
| Posts.MetadataEntry | src/lib/posts.ts:28-31 | a line writes nothing exactly when it is empty or starts with a colon; a key that is written holds no colon |
| Posts.MetadataEntryMatchesSplit | src/lib/posts.ts:28-31 | the write of a line, stated through its first colon, is the one the code computes by `split(":")` and `join(":")`: nothing when the text before the first colon is empty (this includes the empty line); otherwise that text trimmed as key, and everything after the colon, trimmed and stripped of quotes, as value |
| Posts.ColonsKeptInValue | src/lib/posts.ts:28-30 | colons after the first stay in the value |
| Posts.LinesWithoutKeyOrColon | src/lib/posts.ts:28-30 | a line without a colon sets its trimmed text to `""`; an empty line and a line like `:x` write nothing |
| Posts.Metadata | src/lib/posts.ts:25-32 | no key of the metadata holds a colon |
| Posts.MetadataDomain | src/lib/posts.ts:27-32 | a key is in the metadata exactly when some header line writes it |
| Posts.MetadataLastLineWins | src/lib/posts.ts:27-32 | a later line with the same key overrides an earlier one |
| Posts.FieldOr | src/lib/posts.ts:36-38 | an empty or missing field takes the default |
| Posts.ParsePost | src/lib/posts.ts:18-41 | a file gives a post exactly when its text matches the frontmatter pattern; the post's slug is the path's slug, its body is verbatim, and its title, date and description are the header's values or, when empty or missing, the slug, `""` and `""` |
| Posts.Collected | src/lib/posts.ts:16-42 | collecting the files that parse gives at most one post per file |
| Posts.CollectedStep | src/lib/posts.ts:16-42 | one more file appends its post when it has one, and nothing otherwise |
| Posts.CollectedMembers | src/lib/posts.ts:16-42 | a value is collected exactly when some item parses to it |
| Posts.ParsedPosts | src/lib/posts.ts:16-42 | there are at most as many posts as files |
| Posts.ParsedPostsMembers | src/lib/posts.ts:16-42 | the parsed posts are exactly the posts of the files that have a header |
| Posts.SortByDate | src/lib/posts.ts:44-46 | the list is in non-increasing date order, is a permutation of its input, and keeps input (file) order among equal dates |
| Posts.FindBySlug | src/lib/posts.ts:51 | finds the first post with the slug, or none when no post has it |
| Posts.ParseMetadata | src/lib/posts.ts:27-32 | the `forEach` builds exactly the metadata of the header |
| Posts.AddMetadataLine | src/lib/posts.ts:27-31 | the `forEach` callback applies exactly the write of its line to the metadata |
| Posts.ReadPost | src/lib/posts.ts:17-41 | reading one file gives exactly its `ParsePost` result |
| Posts.GetPosts | src/lib/posts.ts:9-47 | returns the date-sorted list of the parsed posts |
| Posts.GetPost | src/lib/posts.ts:49-52 | returns the first post with the slug in the sorted list |
| EnvConfig.EnvEntry | get_token.js:13-14 | a line without `=` writes nothing; a written key and value hold no `=` |
| EnvConfig.EnvEntryMatchesSplit | get_token.js:13-14 | the write of a line, stated through its first two `=`, is the one the code computes from `split("=")`: a write exactly when the first piece is non-empty and a non-empty second piece exists, with the two pieces trimmed as key and value |
| EnvConfig.EnvConfigOf | get_token.js:9-16 | no key and no value of the configuration holds an `=` |
| EnvConfig.ParseEnv | get_token.js:9-16 | the `reduce` builds exactly the dictionary of the file's lines |
| EnvConfig.AddLine | get_token.js:12-15 | the `reduce` callback applies exactly the write of its line to the accumulator |
| EnvConfig.EnvDomain | get_token.js:12-16 | a key is configured exactly when some line writes it |
| EnvConfig.EnvLastLineWins | get_token.js:12-16 | a later line with the same trimmed key overwrites an earlier one |
| EnvConfig.EnvEntryAfterKey | get_token.js:13-14 | a line that starts with a non-empty key free of `=` writes exactly when the text after the first `=` has a non-empty start before any further `=`, and writes the trimmed key and that trimmed start |
| EnvConfig.ValueCutAtEquals | get_token.js:13 | a value with a further `=` is cut there |
| EnvConfig.BlankValueStoredEmpty | get_token.js:14 | `KEY= ` passes the test before trimming and is stored as `""` |
| EnvConfig.CarriageReturnTrimmed | get_token.js:11-14 | lines are split on `\n` only, and the trailing `\r` of a Windows line end is removed by `trim` |
| EnvConfig.SkippedLines | get_token.js:14 | lines with no `=`, an empty key or an empty value write nothing |

## Left out

- **Transport and I/O.** This covers the `redisCommand` HTTP request and JSON
  decoding (`src/hooks/useLiveViewers.ts:62-72`), the `fetch` of the
  geolocation service, `import.meta.glob` and the lazy file loading
  (`src/lib/posts.ts:10-17`), and `readFileSync` and the token exchange in
  `get_token.js`. The store is in memory. The network's effect is the
  per-command `Fault`, and the lookup's answer is a parameter.
- **React and timers.** `useState`/`useEffect`, `setInterval` and
  `clearInterval` are not modelled. Each procedure is one method call, and
  the 20-second schedule appears only as the assumption of
  `MarkerNeverLapses`. There is no teardown guard, since the code has none.
- **Time between commands.** The model does not capture the time that passes
  between the awaited commands of one procedure. A marker that expires
  between a heartbeat's `SETEX` and its `KEYS` is therefore not modelled.
- **Concurrency.** The hook starts `init` and `heartbeat` without awaiting
  them. The model runs them as separate method calls.
  `InitAndHeartbeatDisjoint` shows that their commands cannot affect each
  other's replies. Interleavings at the command level are not themselves
  modelled. Other browsers writing to the shared store are not modelled.
- **Unreliable-network details.** A reply whose body is not the expected
  JSON, or a Redis error object, is not modelled. Every failure is one of
  the two `Fault` kinds.
- **Time values.** `Date.now()` and `Math.random()` are parameters of
  `GenerateVisitorId`. The base-36 shape of the random suffix is not
  modelled.
- **KeyValueStore.Db.Incr:** does not model the 64-bit range of Redis
  counters or its overflow error, because the values stay far below it.
  Values are integers, not strings. `SETEX` stores the number 1 rather than
  the text "1".
- **KeyValueStore.Db.Keys:** only models the trailing-`*` prefix pattern the
  hook uses. Other glob patterns and Redis's unspecified listing order are
  not modelled. The model lists keys in first-write order.
- **LiveViewers.CountryCodeToFlag:** counts the length of the code in code
  points, not in UTF-16 code units. A one-character code outside the Basic
  Multilingual Plane has length 2 in JavaScript and is converted, from its
  two surrogates; the model returns it unchanged. The flag is given as a
  sequence of code points. `String.fromCodePoint` and its surrogate encoding
  are not modelled.
  The `catch` on `:57-59` cannot be reached for these code points and is not
  modelled.
- **Text.ToUpperAscii:** upper-cases ASCII letters only, not the full Unicode
  case mapping of `toUpperCase`. Strings are sequences of Unicode code points,
  not of UTF-16 code units.
- **Posts.SortByDate:** ranks dates through an integer key. The `NaN` that
  `new Date` gives for a malformed date, and the comparator inconsistency it
  causes, are not modelled.
- **Posts.Metadata:** does not model the special behaviour of a header key
  named `__proto__` on a plain JavaScript object. CRLF line ends in a file
  make its text not match the frontmatter pattern. The model shows this
  through `SplitFrontmatter`, but no lemma is stated about it.
- **EnvConfig.EnvConfigOf:** stores a key named `__proto__` like any other.
  On the plain JavaScript object of the `reduce`, assigning a string to
  `__proto__` goes to the prototype setter, which ignores it, so no entry is
  written.
- **Console output.** The `console.warn` without credentials
  (`src/hooks/useLiveViewers.ts:83`) and the `console.error` in each `catch`
  (`:106`, `:136`, `:153`) have no effect on the state and are not modelled.
- **UI and other modules.** `src/pages/*`, `src/App.tsx`, `src/components/GitHubGraph.tsx`,
  `src/hooks/useSpotify.ts` and `tailwind.config.cjs` are not part of this
  model. They are presentation, configuration or network clients.
