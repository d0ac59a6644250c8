# excavator — a verified model of its core

excavator crawls a Chinese dictionary site into a database. It works in two
phases. The radical phase discovers the radicals (categories) from the site's
listing page and its AJAX endpoint, stores them, and hands them on. The
character phase replays the stored radicals to a downstream consumer. This
project models the orchestration core of `excavator.go` and the HanCheng page
analyzer of `radical_hancheng.go` in Dafny, and proves what they promise.

The model covers:

- **URL helpers.** `TrimSlash` and `URL` (`Urls`) are modelled as functions.
  `URL` is also a method with its loop, proved equal to the join it
  specifies. Lemmas state what these helpers remove and insert.
- **The Excavator object.** `Excavation.Excavator` is a class with the Go
  struct's fields. It covers `New`, `Limit`/`SetLimit`, `DB`/`SetDB`,
  `Header`/`SetHeader`, the step-gated `Radical()` and `Character()`
  accessors, and the part of `PreRun` the pipeline relies on. The step
  constants are `StepAll = 0`, `StepRadical = 1` and `StepCharacter = 2`.
  The last two come from `iota` on the 2nd and 3rd lines of the const block.
- **The replay stage.** `findRadical` is modelled as the method
  `Excavator.FindRadical`. It is proved against `Replay.Replayed`: every
  page that can be read, in page order, and then the nil sentinel. The
  proved properties are pagination completeness when nothing fails,
  order-preserving subsequence when pages fail, and exactly one terminating
  nil on every path.
- **The discovery stage.** `parseRadical` and `saveRadicalCharacter` are
  the methods `Excavator.ParseRadical` and `Excavator.SaveRadicalCharacter`.
  They are proved against `Discovery.Discovered`. The listing page is
  abstracted as the `data-action` values of its anchors, in document order.
  The AJAX endpoint is a map from each token whose POST, read and decoding
  succeed to its decoded unions.
- **The store.** The xorm engine is `Store.Database`: a sequence of radical
  rows with count, count-by-URL, offset/limit paging and insert-one. Which
  queries fail is fixed by a deterministic fault plan (`Store.Faults`).
- **The HanCheng analyzer.** `analyzeRadical` is the method
  `HanCheng.AnalyzeRadical`. The page is abstracted as its collapsible
  groups. Each group has a stroke-count label and the `data-action`
  attributes of its anchors. The selector `div > a[data-action]` matches only
  anchors that carry the attribute, so a real page gives `Some` for each one.
  `None` models a failed attribute lookup, which the code reads as "".

A channel is modelled by the sequence of messages its stage sends, which the
stage method returns. `None` stands for the nil value that closes the
stream.

**The save gate, as written.** `saveRadicalCharacter` (excavator.go:322-329)
counts the rows that have the record's URL. It returns early when the count
fails or is zero. So it inserts only when a row with that URL is already
present. The evident purpose of the stage is to store each newly discovered
radical, which is the opposite gate: insert when absent. The model follows
the code as written. `Discovery.Save` and `Excavator.SaveRadicalCharacter`
insert only on a positive count. The lemmas `Discovery.SaveOnlyDuplicates`,
`Discovery.SaveAllKeepsURLs` and `Discovery.EmptyStoreStaysEmpty` make the
consequence explicit: the set of stored URLs never changes, and discovery
run on an empty table stores nothing. The records still reach the channel,
because a zero count returns nil. The insert-if-absent gate is modelled
beside it as `Discovery.SaveIfAbsent` and `Excavator.SaveRadicalCharacterIfAbsent`,
with the dedup property proved (see "## Findings").

## Model

| member | source | states |
|---|---|---|
| `Urls.TrimSlash` | excavator.go:294-304 | a string of length at most 1 is returned unchanged; otherwise the result is at most 2 characters shorter, and never longer |
| `Urls.TrimSlashRestores` | excavator.go:294-304 | putting back the leading and trailing '/' that were present restores the input: only those two characters are removed, nothing in between |
| `Urls.TrimSlashKeepsUnslashed` | excavator.go:294-304 | a string that neither starts nor ends with '/' is returned unchanged |
| `Urls.BasePrefix` | excavator.go:281-284 | the prefix changes exactly when it is longer than 1 and ends in '/', and then it loses exactly that '/' |
| `Urls.JoinedNoSegments` | excavator.go:286-290 | with no segments, URL returns the trimmed prefix alone |
| `Urls.JoinedSnoc` | excavator.go:286-290 | one more segment appends "/" and the trimmed segment at the end |
| `Urls.JoinedStartsWithPrefix` | excavator.go:280-291 | the result begins with the trimmed prefix |
| `Urls.JoinedLength` | excavator.go:280-291 | length of the result = trimmed prefix + one separator per segment + the trimmed segments |
| `Urls.JoinedSeparators` | excavator.go:280-291 | the '/' characters of the result are the prefix's, one per segment, and those left inside the trimmed segments |
| `Urls.URL` | excavator.go:280-291 | the loop that collects the prefix and trimmed segments and joins them with '/' computes `Joined(prefix, uris)` |
| `Store.CountURL` | excavator.go:323 | the per-URL row count is at most the row count, and is positive exactly when the URL is stored |
| `Store.CountURLAppend` | excavator.go:323 | appending a row adds one to the count of its URL and leaves every other URL's count unchanged |
| `Replay.OffsetsInRange` | excavator.go:149 | every offset read lies in [x, n): pages start inside the table |
| `Replay.OffsetsStepByLimit` | excavator.go:149 | the i-th page read starts at x + i*limit |
| `Replay.OffsetsCoverTable` | excavator.go:149 | the offset after the last page read is at or past the row count: the pages cover the table |
| `Replay.GatherStep` | excavator.go:149-159 | the pages from x on are the page at x, then the pages from x + limit on |
| `Replay.ReplayAdvance` | excavator.go:149-159 | one loop iteration preserves "sent so far + still to send = everything replayed" |
| `Replay.ReplayTerminated` | excavator.go:141-143 | the replay output ends in exactly one nil, and every earlier message is non-nil; for any limit when the count fails or the table is empty, for a positive limit otherwise |
| `Replay.ReplayOnlySentinel` | excavator.go:144-148 | when the count fails or the table is empty, nil is the only message, whatever the limit |
| `Replay.GatherAppend` | excavator.go:149-159 | reading the pages of `a + b` gives the rows of `a`'s pages, then those of `b`'s |
| `Replay.FailedPageSkipped` | excavator.go:151-155 | a page whose query fails contributes nothing, and the pages around it are still sent, in order |
| `Replay.NoneFailedFrom` | excavator.go:151-155 | "no offset read is a failing one" implies the page-by-page no-failure condition |
| `Replay.PageThenRest` | excavator.go:151 | a page that is not the last, followed by the rows after it, is the suffix from its offset |
| `Replay.LastPage` | excavator.go:151 | the last page holds every row from its offset on |
| `Replay.GatherComplete` | excavator.go:149-159 | with no failing page, the pages from x on give exactly the rows from x on, whatever the page size |
| `Replay.ReplayComplete` | excavator.go:140-160 | pagination completeness: when the count and every page succeed, every stored row is sent exactly once, in table order, then nil |
| `Replay.GatherSubseq` | excavator.go:149-159 | the pages from x on send an order-preserving subsequence of the rows from x on |
| `Replay.ReplaySubseq` | excavator.go:140-160 | whatever fails, the replay sends only stored rows, in table order, each stored row at most once |
| `Discovery.SaveAllSnoc` | excavator.go:178-185 | one more decoded record is sent exactly when its save returned nil, and the table becomes what that save left |
| `Discovery.FlattenSnoc` | excavator.go:177-178 | the records of the unions are those of the earlier unions, then the next union's array |
| `Discovery.SaveGate` | excavator.go:322-329 | a save leaves the table unchanged or appends exactly that record. It appends iff the URL count succeeded and the URL is present and the insert succeeded. It returns nil iff the count succeeded and (the URL is absent or the insert succeeded) |
| `Discovery.SaveOnlyDuplicates` | excavator.go:322-329 | the gate as written never adds a new URL; any row it adds duplicates a stored URL (count at least 2 afterwards) |
| `Discovery.SaveAllKeepsURLs` | excavator.go:177-186 | over all saves, the table only grows at the end, and its set of URLs is unchanged |
| `Discovery.SaveAllEmitsSubseq` | excavator.go:177-186 | the records sent are an order-preserving subsequence of the decoded records |
| `Discovery.SaveAllFaultFree` | excavator.go:177-186 | when no count or insert fails, every decoded record is sent, and the table gains a duplicate of exactly the records whose URL it already held, in order |
| `Discovery.EmptyStoreStaysEmpty` | excavator.go:322-329 | discovery run on an empty table leaves it empty |
| `Discovery.FlattenAppend` | excavator.go:177-178 | the records of `a + b` unions are those of `a`, then those of `b` |
| `Discovery.CandidatesPush` | excavator.go:167-177 | an anchor's records follow those of the anchors before it |
| `Discovery.CandidatesAppend` | excavator.go:167-177 | anchors are handled in document order: the records of `a + b` are those of `a`, then those of `b` |
| `Discovery.SilentAnchor` | excavator.go:168-176 | an anchor with an empty action, or whose request or decoding fails, yields nothing and leaves the other anchors' records unchanged |
| `Discovery.DiscoveryTerminated` | excavator.go:163-165 | the discovery output ends in exactly one nil, and every earlier message is non-nil |
| `Discovery.ScenarioCandidates` | excavator.go:167-179 | anchors "A" (decoding to one union holding one record) and "B" (absent from the endpoint) yield exactly that record |
| `Discovery.EmptyStoreScenario` | excavator.go:162-201 | on an empty store, anchors "A" (decoding to one record) and "B" (failing) give the record and then nil, and the table stays empty |
| `Discovery.CountErrorNotSent` | excavator.go:180-184 | a record whose URL count fails is not sent: the save's error takes the `continue` before the send |
| `Discovery.SaveIfAbsentGate` | excavator.go:322-329 | insert-if-absent gate: the table is unchanged or gains exactly the record, and it gains it iff the count succeeds, the URL is not stored and the insert succeeds |
| `Discovery.SaveIfAbsentTwice` | excavator.go:322-329 | saving a record twice into a table without its URL, with no failing query, stores exactly one row with that URL; the second save changes nothing |
| `Discovery.SaveAllIfAbsentUnique` | excavator.go:177-186 | with the insert-if-absent gate, a table with unique URLs keeps them unique over any run of saves |
| `Discovery.CountErrorStillSent` | excavator.go:180-185 | with the intended handling, a record whose existence check fails is still sent |
| `Discovery.IfAbsentScenario` | excavator.go:162-201 | with the insert-if-absent gate, the two-anchor scenario on an empty store sends the record, then nil, and stores exactly that one row |
| `Excavation.Excavator.New` | excavator.go:82-86 | sets the URL and workspace and a limit of 50; everything else is unset (empty header, no db, no channels, StepAll), so neither channel is exposed |
| `Excavation.Excavator.Limit` | excavator.go:49-52 | returns the stored page size |
| `Excavation.Excavator.SetLimit` | excavator.go:54-57 | `Limit()` afterwards returns the value set; no other field changes |
| `Excavation.Excavator.DB` | excavator.go:59-62 | returns the stored engine (nil when none was set) |
| `Excavation.Excavator.SetDB` | excavator.go:64-67 | `DB()` afterwards returns the value set; no other field changes |
| `Excavation.Excavator.Header` | excavator.go:69-75 | returns a new empty header when none is stored, otherwise the stored one |
| `Excavation.Excavator.SetHeader` | excavator.go:77-80 | stores the header as given; `Header()` then reads back the header, or an empty one for nil |
| `Excavation.Excavator.PreRun` | excavator.go:89-102 | installs the default store only when none was set, and allocates two new channels |
| `Excavation.Excavator.Radical` | excavator.go:107-113 | the radical channel is returned iff the step is StepRadical; otherwise nil |
| `Excavation.Excavator.Character` | excavator.go:115-121 | the character channel is returned iff the step is StepCharacter; otherwise nil |
| `Excavation.ChannelsExclusive` | excavator.go:107-121 | the two channels are never both exposed, and in StepAll neither is |
| `Excavation.Excavator.FindRadical` | excavator.go:140-160 | the paging loop sends exactly `Replayed(rows, faults, limit)`, and that output is terminated by one nil; any limit is accepted when the count fails or the table is empty |
| `Excavation.Excavator.SaveRadicalCharacter` | excavator.go:322-329 | the returned error and the new table are those of `Save` on the old table: count error; nil without insert on zero; otherwise the insert's result |
| `Excavation.Excavator.SaveRadicalCharacterIfAbsent` | excavator.go:322-329 | the corrected save: its error and new table are those of `SaveIfAbsent` on the old table (count error; nil without insert on a positive count; otherwise the insert's result) |
| `Excavation.Excavator.ParseRadical` | excavator.go:162-201 | the nested loops send exactly `DiscoveryOutput(...)`, leave the table as `Discovered(...).rows`, and the output is terminated by one nil |
| `HanCheng.AnalyzeRadical` | radical_hancheng.go:28-44 | the nested append loops return exactly `Analyzed(doc)` |
| `HanCheng.GroupRecordsSnoc` | radical_hancheng.go:31-39 | one more anchor appends its record iff its action is non-empty |
| `HanCheng.AnalyzedSnoc` | radical_hancheng.go:29-42 | one more group appends that group's records |
| `HanCheng.KeptAppend` | radical_hancheng.go:37-38 | filtering out empty actions distributes over concatenation |
| `HanCheng.GroupRecordsExact` | radical_hancheng.go:30-39 | a group yields exactly one record per anchor with a non-empty action, in anchor order, each with the group's label as BiHua, the action as BuShou and an empty URL |
| `HanCheng.KeptSound` | radical_hancheng.go:35-38 | every kept action is non-empty and is one of the anchors' actions |
| `HanCheng.KeptComplete` | radical_hancheng.go:35-38 | every non-empty action is kept; a missing or empty attribute is the only reason to drop an anchor |
| `HanCheng.KeptInOrder` | radical_hancheng.go:31-38 | kept actions stay in anchor order |
| `HanCheng.AnalyzedAppend` | radical_hancheng.go:29-42 | groups are handled in document order: the page `a + b` yields `a`'s records, then `b`'s |
| `HanCheng.AnalyzedCount` | radical_hancheng.go:31-38 | the number of records equals the number of anchors with a non-empty action |
| `HanCheng.GroupRecordsSound` | radical_hancheng.go:30-38 | every record of a group has a non-empty BuShou taken from one of its anchors, the group's label and an empty URL |
| `HanCheng.AnalyzedSound` | radical_hancheng.go:28-44 | every record returned has a non-empty BuShou and an empty URL, and both its BiHua and its BuShou come from one group of the page |
| `HanCheng.AnalyzedComplete` | radical_hancheng.go:28-44 | every anchor with a non-empty action yields the record (group label, action, empty URL) |

## Findings

| source | as written | input that shows it | evidently intended | confidence | as-written member | corrected member |
|---|---|---|---|---|---|---|
| excavator.go:324-327 | returns early when the URL count is zero, so the insert runs only when the URL is already stored | empty table, no faults, anchor "A" decoding to one record: the record is sent and the table stays empty | insert when the URL is absent, skip when present, so each discovered radical is stored once | not executed; high | `Discovery.EmptyStoreScenario` | `Discovery.SaveIfAbsentTwice` |
| excavator.go:180-184 | any error of the save, including a failed existence count, skips the send with `continue` | a record whose URL count query fails: nothing is sent for it | a failed existence check is logged and the record is still sent; only a failed insert keeps it back | not executed; medium | `Discovery.CountErrorNotSent` | `Discovery.CountErrorStillSent` |

The stage methods `Excavator.SaveRadicalCharacter` and `Excavator.ParseRadical`
model the code as written. The corrected gate is `Discovery.SaveIfAbsent`, its
run `Discovery.SaveAllIfAbsent` and the method
`Excavator.SaveRadicalCharacterIfAbsent`; `Discovery.SaveAllIfAbsentUnique` and
`Discovery.IfAbsentScenario` prove the intended behaviour about them.

## Left out

- Network I/O is left out: `parseAJAX`'s HTTP POST (excavator.go:203-226), and colly's `Visit`, `OnResponse` and `OnRequest` (excavator.go:190-199). The endpoint is a map argument, and the listing page is the list of its `data-action` values.
- The decoding done by `UnmarshalRadical` is left out; a token whose request, read or decoding fails is one outside the endpoint map. `UnmarshalRadical`, `RadicalReader`, `NewQuery` and the `Radical`, `RadicalUnion` and `RadicalCharacter` type definitions are not part of this model. Records carry only `BiHua`, `BuShou` and `URL`.
- The disk cache is left out: `parseDocument`, `IsExist` and `getFilePath` (excavator.go:229-277) are filesystem and HTTP plumbing, and `getFilePath` reads the working directory.
- `SHA256` (excavator.go:332-334) is left out: it is a library hash and nothing modelled depends on it.
- `Run` (excavator.go:124-139) is left out: it starts the stages as goroutines. Concurrency and channel blocking are not modelled; each stage is a sequential method whose sent messages are its result.
- `parseCharacter` (excavator.go:306-320) and the selenium driver are left out: browser automation with an unfinished body.
- `Excavation.Excavator.PreRun` models only the default store and the two new channels. `Sync2` and its panics (excavator.go:93-100) and the selenium start (excavator.go:103-104) are not modelled; the default store is passed in rather than opened from "exc.db".
- `Excavation.Excavator.FindRadical` requires `Replay.Ends`: a positive limit, or a failing count, or an empty table. With a positive count and a limit of 0 the Go loop never ends. With a negative limit `x` runs negative and the engine receives negative offsets; with int64 wrap-around of `x += limit` the loop can end, for instance a limit of -2^62 gives offsets 0, -2^62, -2^63 and then wraps to 2^62. Negative offsets and the int64 wrap-around are not modelled, so negative limits with a non-empty table are outside the contract.
- `Excavation.Excavator.ParseRadical` sends a record equal to the decoded one. In Go the message is a copy taken before the save, so fields the engine fills in on insert, such as an auto-increment id, are not in it; ids are not modelled.
- The step field has no setter in the source, so a new Excavator stays in StepAll. The model has no setter either.
- `DB()` and `Header()` hand out the stored engine and header by reference in Go. A caller mutating the returned header map (aliasing) is not modelled; headers are values here.
- `grabRadicalList` and `fillRadicalDetail` (radical_hancheng.go:10-26, 46-75) are left out: they are network I/O, and `log.Panicf` at radical_hancheng.go:58 makes the rest of `fillRadicalDetail` dead code.
- Logging (`log.*`, `fmt.Println`) is left out; it has no effect on the modelled state.
- Go strings are byte strings; here they are sequences of characters. TrimSlash and URL look only at the one-byte character '/', so the stated properties carry over.
- The tests in excavator_test.go exercise `Self`, `SelfRadical` and `SelfCharacter`, which are not part of this model.
- The `HTML` and `Radicals` fields of the Excavator struct are left out: no modelled operation reads or writes them.
