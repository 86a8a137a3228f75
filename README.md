# hotpresidents poll state in Dafny

hotpresidents.com is a small web service where visitors vote whether a US
president is "hot" or "not". This project models the service's poll state and
what changes it. The state is a store keyed by slug, holding president records
that each carry a `hot` and a `not` counter. The operations are:

- **Votes and records.** A vote increments a counter. The score is `hot - not`.
  The slug (`short_name`) is the lower-cased name with dots removed and spaces
  turned into underscores. The index page shows one item per record.
- **The tally file.**
  - `save_state` writes one `slug,hot,not` line per record.
  - `load_state` reads the file line by line and upserts the counts. It stops
    at the first line whose `unwrap` panics.
- **Reload.** `reload_airtables` inserts each fetched record under its slug. A
  failed request leaves the store as it was.
- **Route handlers.**
  - `cast_vote` looks a record up, counts the vote on a copy and inserts the
    copy under the copy's slug.
  - `next_president` picks any key.
  - `vote` and `stats` are read-only lookups that either render a page or
    redirect to the error page.

Modules:

- `Wrappers` provides `Option`.
- `Strings` models the pieces of Rust's string library the code relies on:
  - ASCII `to_lowercase`;
  - one-character `replace` and `split`;
  - `format!` of a count;
  - `str::parse::<usize>`;
  - the line splitting of `BufRead::lines`.
- `Models` covers `src/models.rs`. It has the records, the store
  (`class Presidents`, whose `entries` map the methods update), slugs, index
  items, `SaveState` and `LoadState`, and the save/load round trip.
- `AtClient` covers `src/at_client.rs`: `ReloadAirtables` and the `Merge`
  fold that specifies it.
- `Service` covers the handlers of `src/main.rs`.

`src/main.rs` also contains an older copy of the record methods, `save_state`
and `reload_airtables`. Its logic is the same as in `src/models.rs` and
`src/at_client.rs`. Each operation is therefore modelled once, and the rows
below also cite the `src/main.rs` lines that match. The older copy reads
no configuration: `save_state` writes to the fixed path
`president_votes_state.data` (src/main.rs:18, 110), and the fetch uses a
hard-coded URI, API key and User-Agent (src/main.rs:15-17, 162-164). Apart
from this file and network configuration, it differs in three ways, none of
which changes the logic:

- its `President` has no `quote` or `years_in_office` field;
- it does not derive `Default`;
- its `load_state` is commented out (src/main.rs:127-138).

Modelling choices:

- **Records are values.** Rust clones a record and the map stores it by value,
  so `President` is a datatype. `hot_vote` and `not_vote` return the updated
  record.
- **Order of values.** `HashMap::values()` visits the records in an
  unspecified order. `SaveState`, `ToIndexItems` and the save lemmas take that
  order as a sequence that lists every key exactly once (`Enumerates`).
  `SaveState` returns it as a ghost result.
- **Load panics.** A `load_state` that panics part-way is modelled as
  `ok == false`, with the store as the panic left it. The entry for the line's
  key has already been inserted by `or_insert(Default::default())` before the
  counts are parsed, and `hot` is already set when only `not` fails to parse.
- **Reload.** The fetch is an input: `Some(records)` when the request
  succeeded, `None` when it failed.

Two behaviours of the code shape the model:

- `reload_airtables` replaces the whole record, tallies included
  (src/at_client.rs:59).
- `load_state` panics on a malformed line instead of skipping it
  (src/models.rs:148-156).

## Model

| member | source | states |
|---|---|---|
| Models.HotVote | src/models.rs:42-44 | `hot` grows by exactly 1; `not`, name, payload and images are unchanged; the score grows by 1 (same as src/main.rs:73-75) |
| Models.NotVote | src/models.rs:46-48 | `not` grows by exactly 1; `hot`, name, payload and images are unchanged; the score drops by 1 (same as src/main.rs:77-79) |
| Service.VotesTally | src/models.rs:42-52 | after any run of votes, `hot` and `not` have grown by the number of "hot" and "not" votes; the score has grown by their difference; the descriptive fields are unchanged |
| Service.ScoreFromZero | src/models.rs:50-52 | starting from zero counts, the score is the number of "hot" votes minus the number of "not" votes, which may be negative |
| Models.SlugAlphabet | src/models.rs:54-56 | a slug holds no '.', no ' ' and no upper-case letter (same as src/main.rs:85-87) |
| Models.SlugIdempotent | src/models.rs:54-56 | the slug of a slug is the slug itself |
| Models.SlugOfKennedy | src/models.rs:54-56 | "John F. Kennedy" has the slug "john_f_kennedy" |
| Models.SlugOfWashington | src/models.rs:54-56 | "George Washington" has the slug "george_washington" |
| Strings.RemoveAllFrom | src/models.rs:55 | `replace(".", "")` leaves no '.', adds no character, and keeps a string that has no '.' |
| Strings.ReplaceCharFrom | src/models.rs:55 | `replace(" ", "_")` leaves no ' ', and every other character of the result was in the input |
| Models.IndexItemShows | src/models.rs:58-68 | an index item carries the record's name, its slug, the signed `hot - not`, and the first image's large thumbnail URL, or "" when there are no images (same as src/main.rs:89-99) |
| Models.IndexItemsCoverStore | src/models.rs:108-110 | there is one index item per store value, and every record of the store appears among them (same as src/main.rs:104-106) |
| Models.SaveOneLinePerRecord | src/models.rs:119-125 | one line per record, and each record's line is its slug, a ',', `hot`, a ',', `not` and "\n"; the line uses the record's slug, not its key (same as src/main.rs:114-120) |
| Models.SaveState | src/models.rs:112-130 | the chunks written are exactly one formatted line per record, in an order that visits every key once (same as src/main.rs:108-125) |
| Strings.ParseDecimal | src/models.rs:155-156 | `parse::<usize>` of a count written by `format!` gives the count back, for every count up to `usize::MAX` |
| Strings.ReadTerminated | src/models.rs:132-138 | `BufRead::lines` of text written as "\n"-terminated lines with no '\n' and no trailing '\r' gives back exactly those lines |
| Models.ParseLineCounts | src/models.rs:146-156 | a line yields counts iff it has at least three comma-separated fields and the second and third parse as counts |
| Models.ParseCountsLine | src/models.rs:146-156 | a line `key,hot,not` yields that key and those counts even when more comma-separated fields follow |
| Models.RecordParses | src/models.rs:119-125 | the line saved for a record whose slug has no ',' or '\n' parses back to its slug and counts, and holds no '\n' and no trailing '\r' |
| Models.LoadLineEffect | src/models.rs:146-156 | one line touches no key but its first field; it succeeds iff it yields counts; then that key holds those counts with the other fields of the old entry; a new key gets the default record with those counts |
| Models.LoadFails | src/models.rs:148-156 | a line with fewer than three fields or an unparsable count makes the whole load fail |
| Models.LoadSucceeds | src/models.rs:143-157 | a file whose every line has three fields with parsable counts loads to completion |
| Models.LoadCompletes | src/models.rs:143-157 | a load completes iff every line has at least three fields and its second and third fields parse as counts |
| Models.LoadUntouched | src/models.rs:143-157 | a key named by no line keeps its entry, or stays absent, whether or not the load completes |
| Models.LoadLastWins | src/models.rs:143-157 | in a load that completes, a key that repeats holds the counts of its last line |
| Models.LoadRecords | src/models.rs:143-157 | loading the saved lines of a slug-keyed store succeeds and overlays each saved record's counts, in file order |
| Models.SaveLoadRoundTrip | src/models.rs:112-159 | save a slug-keyed store whose slugs hold no ',' or '\n' and whose counts fit a `usize`, then load the file into any store: the load succeeds, every saved key holds its saved `hot` and `not`, the other fields come from the old entry or the default record, and the other keys are unchanged |
| Models.SaveLoadIdentity | src/models.rs:112-159 | saving such a store and loading the file back into it gives back the same store |
| Models.LoadState | src/models.rs:140-159 | a missing file leaves the store unchanged; otherwise the store and the success flag are those of applying the file's lines in order, stopping at the first line that panics |
| Models.Presidents.constructor | src/main.rs:369 | `Presidents::new()` is the empty store |
| AtClient.MergeKeys | src/at_client.rs:58-60 | after a merge, a key is present iff it was present before or some fetched record has it as its slug; nothing is deleted (same as src/main.rs:190-192) |
| AtClient.MergeUntouched | src/at_client.rs:58-60 | a key that no fetched record produces keeps its entry exactly, or stays absent |
| AtClient.MergeLastWins | src/at_client.rs:58-60 | a fetched slug holds the last fetched record with that slug, whole; its `hot` and `not` replace the stored tallies |
| AtClient.MergeSlugKeyed | src/at_client.rs:58-60 | merging into a store whose keys are their records' slugs keeps it so |
| AtClient.ReloadAirtables | src/at_client.rs:54-61 | the store becomes the merge of the fetched records in order; a failed request leaves it unchanged (same as src/main.rs:186-193) |
| AtClient.Startup | src/main.rs:369-370 | the start-up store is the merge of the first fetch into the empty store, and every key is its record's slug |
| Service.ApplyVote | src/main.rs:328-332 | "hot" adds 1 to `hot` only, "not" adds 1 to `not` only, and any other word changes nothing; name, payload and images are never changed |
| Service.AfterVote | src/main.rs:326-334 | after a vote, the counted copy of `id`'s record is stored under that record's slug, and every other key is unchanged |
| Service.CastVote | src/main.rs:320-340 | `id` must be in the store, since the `unwrap` panics otherwise; the new store is the one `AfterVote` describes |
| Service.CastVoteOnSlugKey | src/main.rs:326-334 | in a slug-keyed store, a vote changes only the entry under `id`, keeps the key set, and keeps the store slug-keyed |
| Service.VoteMisfiled | src/main.rs:334 | when `id` is not its record's slug, the entry under `id` is left unchanged and the counted copy lands under the slug |
| Service.PlaceholderMisfilesVotes | src/models.rs:152-156 | a placeholder created by loading an unknown key has the empty name, so a vote on that key files the counted copy under the empty slug and leaves the placeholder's counts as loaded |
| Service.CastAllTally | src/main.rs:326-334 | on a slug-keyed store, successive votes on `id` give `id` the record after all those votes, and leave every other entry as it was |
| Service.NextPresident | src/main.rs:342-353 | the store must not be empty, since the `unwrap` of `choose` panics otherwise; the result is some key of the store |
| Service.Vote | src/main.rs:263-289 | a present id renders its name and slug; an absent id gives the error redirect |
| Service.Stats | src/main.rs:291-318 | a present id renders its name, `hot` and `not`; an absent id gives the error redirect |
| Service.StatsAfterVote | src/main.rs:297-334 | on a slug-keyed store, the stats page after a vote shows the counted vote on the right counter; on a key that is not its record's slug, it shows the old page |

## Left out

- Network access and JSON decoding (`get_airtables_data`) are not modelled; the fetched batch is an input. A response body that fails to decode makes its `unwrap` panic, which is not modelled either.
- File I/O and the threadpool (`File::create`, `write_all`, `File::open`, `web::block`) are not modelled. Save produces the chunks written, and load takes the file's contents, or `None` when the file cannot be opened.
- LoadState: a line that is not valid UTF-8 makes `line.unwrap()` panic. This is not modelled, because the file is taken as text.
- HTTP routing, response headers, redirect locations, askama rendering, the 404 page, the index handler's rendering and the server set-up are not modelled. `vote` and `stats` are modelled only as the data their pages show.
- src/config.rs is not part of this model. It reads environment variables.
- The mutex and concurrency are not modelled: each handler holds the lock for its whole body, so each is one atomic step.
- NextPresident: the uniform randomness of `choose` is not modelled. The pick is any key of the store.
- js/index.js is not part of this model. It is browser code that compares two counts to choose a style.
- Slug: only ASCII letters are lower-cased. Full Unicode `to_lowercase` is library behaviour and is not modelled.
- HotVote, NotVote: counts are unbounded naturals, so the wrap-around (or debug-build panic) of `usize` `+= 1` at `usize::MAX` is not modelled. Likewise the score is an unbounded integer rather than the result of the `usize` to `isize` casts.
- Image sizes and the `u16` widths, heights and term fields are unbounded naturals. Nothing in the modelled operations depends on their width.
- Poisoning of the mutex after a panicking handler is not modelled. A panic is either a precondition (`cast_vote` on an unknown id, `next_president` on an empty store) or the `ok == false` outcome of `LoadState`.
