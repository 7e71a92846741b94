# Bookmark list controller, modelled in Dafny

The widget keeps a list of bookmarks in browser storage and shows it as
cards under a search box. Each card has a star button and a remove button;
removal asks for confirmation. All of its logic sits in one React component,
`App.js`. The component also defines `addBookmark`, which builds an entry from
a three-field form (title, URL, comma-separated tags). As written, though, the
component renders no such form and never calls `addBookmark`. The "+ Add
Bookmark" button only sets `showForm`, which nothing reads. The `form` state is
blank at creation and only ever reset to blank (App.js:20, 60). The model
still gives `addBookmark`'s body as the `Add` operation.
`BlankFormSubmitChangesNothing` records what submitting the only form the
component holds would do: nothing.

This project lifts that logic out of React as pure functions over an
immutable `Bookmark` datatype and a `seq<Bookmark>` collection, and proves
what each operation does.

Modules:

- `Wrappers`: `Option`, used for record fields that stored data may lack.
- `Strings`: the JavaScript string operations the controller uses. These are
  `trim`, `split(",")`, `toLowerCase` and `includes`. The `startsWith("http")`
  test is `Bookmarks.HasHttpPrefix`.
- `Seqs`: `Filter` (the shape of `Array.prototype.filter`) and the
  subsequence relation that says "order is preserved".
- `Bookmarks`: the record, the URL-prefix rule, tag parsing, the two-entry
  seed list.
- `Controller`: add, remove, toggle-favorite, the filtered view, the
  load-or-seed start-up. It also has a `Session`/`Event` step function that
  tracks the snapshot last written to storage.
- `Scenarios`: worked examples, proved. They cover URL normalisation of
  bare, `http`, look-alike and upper-case inputs, tag parsing with padding
  and with an empty piece, the "mdn" search over the seed list, and
  unparseable stored text.

Inputs that are not deterministic in the original become parameters:

- the random id of a new entry (`freshId`) and of the two seed entries;
- the answer to the confirmation prompt (`confirmed`);
- what reading the storage slot produced (`Slot`);
- the JSON decoder (`parse`, returning `None` where it would throw).

Behaviour the model follows as written:

- Tags are trimmed, but empty pieces are kept: `"a,,b"` gives `["a", "", "b"]`.
- The URL test is a bare, case-sensitive `startsWith("http")`. So
  `"httpbin.org"` is kept without a scheme, and `"HTTP://x"` becomes
  `"https://HTTP://x"`.
- An absent `favorite` reads as false. Toggling it stores `true`.
- Nothing enforces unique ids. `remove` deletes every entry with the given
  id, and `toggleFavorite` flips every such entry. "Removes exactly one" is
  proved under a uniqueness precondition. `StepKeepsUniqueIds` shows that
  uniqueness is preserved as long as each fresh id is unused.
- When ids are unique, a confirmed removal of a present id shortens the
  list by exactly one (`RemoveExactlyOne`).
- Toggling twice does not always give back the same record. For an entry
  with no stored `favorite`, the first toggle stores `true` and the second
  stores `false`. The star shows the same as before, but the record now has
  a `favorite` field (`ToggleTwice`).
- For records with a string title, the only kind `Bookmark` can hold, the
  `!q ||` short-cut in the search predicate does not change the view: every
  such entry matches the empty query (the contract of `Matches`). For a
  stored record without a title, `!q` is what keeps the empty-query view
  from throwing. Once a query is typed, App.js:79 calls `toLowerCase` on
  the missing title and throws.

## Model

| member | source | states |
|---|---|---|
| Strings.Trim | App.js:56 | the result is a slice of the input with only whitespace cut from either end, neither of its ends is whitespace, and all its characters come from the input |
| Strings.TrimUnique | App.js:56 | trimming is determined by that contract: whitespace + trimmed middle + whitespace always trims to the middle |
| Strings.Split | App.js:56 | `split(",")` yields one more piece than there are separators, no piece contains the separator, and joining the pieces with the separator gives back the input |
| Strings.SplitJoin | App.js:56 | splitting undoes joining for separator-free pieces, so the pieces are the unique such decomposition |
| Strings.Lower | App.js:76 | lowering keeps the length, leaves no upper-case ASCII letter, shifts `A`-`Z` to `a`-`z` and keeps every other character |
| Strings.LowerKeepsLowercase | App.js:76 | a string without upper-case ASCII letters (such as an already lowered one) is unchanged by lowering |
| Strings.Includes | App.js:79-81 | the left-to-right scan returns true exactly when the query occurs at some position of the string |
| Strings.EmptyIsSubstring | App.js:78 | the empty string occurs in every string |
| Seqs.Filter | App.js:66 | the result keeps exactly the elements satisfying the predicate, is never longer, equals the input when all satisfy it and is empty when none do |
| Seqs.FilterIsSubsequence | App.js:75 | filtering keeps the surviving elements in their original relative order |
| Seqs.FilterCounts | App.js:66 | as multisets, the result is the input restricted to the predicate: every copy of a kept element survives and no copy of a dropped one does |
| Seqs.FilterDropsOne | App.js:66 | when only the element at k fails the predicate, filtering deletes exactly that element |
| Bookmarks.NormalizeUrl | App.js:55 | the result always starts with "http", equals the input exactly when the input starts with "http", otherwise is "https://" + input, and always ends with the input |
| Bookmarks.NormalizeUrlIdempotent | App.js:55 | normalising twice is normalising once |
| Bookmarks.ParseTags | App.js:56 | empty text gives no tags; otherwise there is one tag per comma plus one, none contains a comma and none starts or ends with whitespace |
| Bookmarks.TrimEach | App.js:56 | the tag list has one entry per piece, each the trim of the piece at the same position |
| Bookmarks.ParseTagsOfPieces | App.js:56 | the tags of a comma-joined text are its pieces, each trimmed, in input order |
| Bookmarks.Seed | App.js:26-43 | the seed list has two entries, "MDN Web Docs" then "Stack Overflow", carrying the two given ids; each has a URL starting with "http", two tags and a note, and no favorite flag |
| Bookmarks.NewBookmark | App.js:52-58 | a built record carries the given id and title, a normalised URL that starts with "http", the parsed tags, empty notes and no favorite flag |
| Controller.Add | App.js:49-62 | an empty title or URL leaves the collection unchanged; otherwise the result is one longer, the new record is first with the fresh id, title, normalised URL and parsed tags, unstarred, and the old entries follow in order; the result is exactly the new record built from the form in front of the old collection |
| Controller.AddKeepsUniqueIds | App.js:53-59 | adding with an id not already present keeps all ids distinct |
| Controller.BlankFormSubmitChangesNothing | App.js:20 | submitting the blank form, the only form state the component ever holds, leaves the whole session unchanged |
| Controller.AddShowsFirst | App.js:59 | with an empty search, the newly added bookmark is the first visible entry and the view grows by one |
| Controller.FilteredAfterAdd | App.js:59 | after an add, the view is the new entry (when it matches the search) followed by the previous view |
| Controller.Remove | App.js:64-67 | a declined prompt changes nothing; a confirmed one leaves an order-preserving subsequence with no entry carrying the id and every entry not carrying it; as multisets, it is the collection with every copy of the id's entries removed and every other copy kept; an absent id changes nothing |
| Controller.RemoveExactlyOne | App.js:66 | with unique ids, a confirmed removal of a present id deletes exactly that entry, keeps the rest in order, and shortens the list by one |
| Controller.FilterKeepsUniqueIds | App.js:66 | removal keeps the ids distinct |
| Controller.ToggleFavorite | App.js:69-73 | the length is preserved, every non-matching entry is unchanged, and a matching entry differs only in its flag, which is flipped with absent read as false |
| Controller.ToggleTwice | App.js:69-73 | toggling twice restores every entry's star and every other field, and restores the record itself whenever its flag was stored |
| Controller.ToggleKeepsUniqueIds | App.js:69-73 | toggling keeps the ids distinct |
| Controller.Filtered | App.js:75-83 | the view is an order-preserving subsequence of the collection; it holds exactly the entries whose lowered title, some tag or URL (absent read as empty) contains the lowered query, with the same number of copies of each such entry as the collection; an empty query shows the whole collection |
| Controller.SearchSelects | App.js:75-83 | filtering with the search predicate keeps exactly the matching entries, in order and with their multiplicities, and everything for an empty query |
| Controller.Matches | App.js:79-81 | every entry, its title being a string, matches the empty query, so for such entries the `!q` test does not change the view |
| Controller.FilteredNoMatch | App.js:123-124 | a query no entry matches yields the empty view (the "No bookmarks found." case) |
| Controller.Initial | App.js:10-17 | the start-up collection is the parsed stored value when the slot holds non-empty text that parses; otherwise it is the two seed entries "MDN Web Docs" then "Stack Overflow", unstarred, with "http" URLs: the seed list |
| Controller.InitialUniqueIds | App.js:10-17 | the start-up collection has distinct ids when the two seed ids differ and a stored list that is used has distinct ids |
| Controller.Start | App.js:10-24 | at start-up the collection is the loaded-or-seeded one, the query is empty, and the mount-time write, taken to succeed, stores that collection |
| Controller.Step | App.js:22-73 | an event that replaces the collection also writes it to storage; any other event leaves both alone; only typing changes the query; a submit, a remove click and a star click change the collection exactly as add, remove and toggle do |
| Controller.StepKeepsSaved | App.js:22-24 | as long as every write succeeds, storage holds the current collection after every event |
| Controller.StepKeepsUniqueIds | App.js:45-73 | every event keeps ids distinct as long as a new entry's id is unused |
| Scenarios.NormalizeBareHost | App.js:55 | "example.com" is stored as "https://example.com" |
| Scenarios.NormalizeHttpUrl | App.js:55 | "http://example.com" is stored unchanged |
| Scenarios.NormalizeHttpLookalike | App.js:55 | "httpbin.org" is stored unchanged, without a scheme |
| Scenarios.NormalizeUpperCaseScheme | App.js:55 | "HTTP://example.com" gets a second, lower-case scheme |
| Scenarios.ParseTagsTrims | App.js:56 | "dev, docs ,  qa" gives the tags "dev", "docs", "qa" |
| Scenarios.ParseTagsKeepsEmpty | App.js:56 | a text like "a,,b" gives "a", an empty tag, and "b" |
| Scenarios.SearchSeedForMdn | App.js:75-83 | searching the seed list for "mdn" shows only the "MDN Web Docs" entry |
| Scenarios.CorruptStorageGivesSeed | App.js:13-15 | stored text that fails to parse gives the two seed entries |

## Left out

- Rendering (JSX, styling, `BRAND`) and the `showForm` flag (App.js:4-8, 19, 61, 85-164): presentation only, and `showForm` is never read.
- The `form` state (App.js:20, 60) is not tracked in `Session`. `Submit` carries the form it submits, because nothing in the component ever fills the form in. No input field is bound to it, and `addBookmark` is attached to no element.
- `localStorage` reads and writes: the read is the `Slot` parameter. The write is the `saved` snapshot of `Session`.
- Start: the write at App.js:23 is taken to succeed. In the original it is outside any `try`, so it throws uncaught when storage is unusable (the `Unreadable` case, where the read already threw) or full (a quota error). The model then still records the collection as saved.
- StepKeepsSaved: relies on the same assumption that every write at App.js:23 succeeds. A failed write throws uncaught in the original and leaves storage holding an older snapshot, or nothing.
- `JSON.parse` and `JSON.stringify`: the decoder is the `parse` parameter. Stored values that decode to something other than a list of records are not modelled. Examples are a non-array value, a record without a string `title`, or a non-boolean `favorite`. In the original a non-array value throws at the `filter` call (App.js:75). A record without a title renders under the empty query and throws only once a query is typed (App.js:78-79). A non-boolean `favorite` is read by JavaScript truthiness.
- `Math.random()` id generation (App.js:45-47): ids are parameters. Collisions are not modelled; uniqueness is a precondition where it matters.
- The blocking `confirm()` prompt: its answer is the `confirmed` argument.
- `e.preventDefault()` and React's state-update batching: framework mechanics with no logical content.
- Strings.Lower: folds only ASCII `A`-`Z`. JavaScript's `toLowerCase` applies full Unicode case mapping, which can also change a string's length.
- Strings are sequences of Unicode scalar values, not UTF-16 code units. `trim`, `split` and `includes` are modelled on that basis.
