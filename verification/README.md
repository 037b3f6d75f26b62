# HTrace: verified models of the span store, the client's codec and its hash table

The project models the core of Apache HTrace in Dafny and proves what it is for.

**The span store of htraced.** A shard is an ordered key-value map (`LevelDb`) that holds one record per
span and its begin, end, duration and parent index keys (`Keys`, `Index`, `Shards`). A query picks one
indexed predicate as its source, scans every shard's index in one direction (`Scans`), merges the shards
(`Merging`, `Sources`), filters and stops at a limit (`Queries`). `Answers` relates that machinery to the
plain filter over the stored spans; `Paging`, `SecondaryPaging`, `SecondaryRuns` and `Dump` treat
continuation tokens and the client's dump loop, `Reaping`, `StrayKeys` and `Pruning` the deletion of old
spans, `Children` the search round the ring of shards. `Ingest` batches incoming spans; `Pipeline` is the
state machine of all interleavings of ingestors with shard workers, one access to shared state per step,
`Conservation` what its runs conserve, and `Accounts` what a finished run amounts to, told from its
events alone. `Metrics` holds the counters, `Loader` the order of the shards on disk, `Restart` the life
of a store across a shutdown. `Conservation.RunBuildsGoodStore` closes the circle: every permitted run of
the pipeline builds the exact, routed indexes that `Answers` and the paging theorems start from.

**The C client.** `HashTable` is the linear-probing table. `Contexts`, `Msgpack`, `Cmp`, `SpanCodec`,
`WireFormat`, `SpanReader` and `Receiver` are the MessagePack codec, from byte contexts to whole span
buffers; the formats are those of the MessagePack specification, whose table of first bytes is
`Msgpack.Marks`, written apart from the reader and the writer. `Utf8` is the JSON string check, against
section 4 of RFC 3629. `Parents` is the in-place deduplication of parent ids.

Code that changes things in place is modelled by classes, arrays and loops whose contracts tie the new
state to specification functions; the theorems are about those functions.

## Where the code falls short of the obvious property

The lemmas named here say exactly when each of these happens; `Witnesses` shows each at an input.

- LE on a time or the duration loses all but the least-id span of each shard that equals the bound,
  because the nine-byte seek lands on the first of them and moves down
  (`Answers.QueryIsFilterIff`, `Answers.LessOrEqualComplete`).
- A continuation token on a time or the duration drops ties (GE, GT), repeats the last result or loses
  ties of other shards (LE), or skips results of other shards (EQ). The exact conditions, for every page,
  are `SecondaryPaging.GreaterContinuesIff`, `SecondaryPaging.LessOrEqualContinuesIff` and
  `SecondaryPaging.EqualsContinuesIff`. For whole runs they are `SecondaryPaging.GreaterPagingIff` and
  `SecondaryRuns.EqualsPagingIff`. A LE run that has a result does not even end, unless another predicate
  rejects the tie just below a result (`SecondaryRuns.LessOrEqualNeverEnds`).
- A rewrite with other begin, end or parents leaves the old index keys behind; `Index.WriteExactIff` and
  `Index.DeleteExactIff` say exactly when a key set stays exact.
- The reaper never sees a span with begin = 0 and an id below 0x80..., because its search key is appended
  twice (`Reaping.ReaperYields`); and a begin key that a rewrite left behind can end its pass early
  (`StrayKeys.ReapMeans`).
- `DumpAll`, with a limit of at least one, ends on every store without the all-0xff id (`Dump.DumpAll`)
  and on no store with it (`Dump.DumpNeverEnds`).
- `VerifyShardInfos` checks the range of every shard index but the first, and panics there.
- A parent id that is not 16 bytes long can make a parent key that looks like another parent's
  (`Children.ChildListExactIff`, `Children.ChildrenExactIff`).
- The C client cuts string lengths and the parent count to 16 bits, and cannot read back an empty string
  (`SpanReader.SpanRoundTripIff`).

## Model

| member | source | states |
|---|---|---|
| `Spans.Next` | htrace-htraced/go/src/htrace/common/span.go:83-97 | the carry loop returns the successor of the id, counted modulo 2^128 on its big-endian value; an id of another length is first cut or padded to 16 bytes |
| `Spans.Prev` | htrace-htraced/go/src/htrace/common/span.go:99-111 | the borrow loop returns the predecessor modulo 2^128 |
| `Spans.Fit16Means` | htrace-htraced/go/src/htrace/common/span.go:83-86 | before stepping, too long an id loses its end and too short a one gets zeros |
| `Spans.NextPrevInverse` | htrace-htraced/go/src/htrace/common/span.go:83-111 | on 16-byte ids Next and Prev undo each other, wrap-around included |
| `Spans.SuccessorIsNext` | htrace-htraced/go/src/htrace/common/span.go:83-119 | for every id but the greatest, another id is greater in byte order exactly when it is at or above the successor |
| `Spans.PredecessorIsPrev` | htrace-htraced/go/src/htrace/common/span.go:99-119 | for every id but zero, another id is smaller in byte order exactly when it is at or below the predecessor |
| `Spans.SuccessorOfMax` | htrace-htraced/go/src/htrace/common/span.go:83-97 | the successor of sixteen 0xff bytes is the zero id |
| `Spans.ValidIdMeans` | htrace-htraced/go/src/htrace/common/span.go:62-73 | an id has no problem exactly if it is 16 bytes long and some byte is not zero |
| `Spans.DurationMeans` | htrace-htraced/go/src/htrace/common/span.go:215-217 | begin plus duration is end modulo 2^64, and is end itself exactly where end minus begin fits int64 |
| `Keys.Int64KeyOrder` | htrace-htraced/go/src/htrace/htraced/datastore.go:228-244 | for all int64 a and b the flipped big-endian bytes of a precede those of b exactly when a < b; equal bytes mean equal numbers |
| `Keys.TimeKeyOrder` | htrace-htraced/go/src/htrace/htraced/datastore.go:228-273 | two keys of one time index are in byte order exactly when (field, id) are in lexicographic order |
| `Keys.KeysNameOwner` | htrace-htraced/go/src/htrace/htraced/datastore.go:246-273 | every key of a span ends with the span's id |
| `Keys.KeysDisjoint` | htrace-htraced/go/src/htrace/htraced/datastore.go:198-273 | two spans with different 16-byte ids share no key, parent keys of odd-length parents included, so deleting one never touches the other's keys |
| `Keys.KeyLayout` | htrace-htraced/go/src/htrace/htraced/datastore.go:246-279 | the keys of a span are exactly: 's' and the id; 'b', 'e' and 'd' with begin, end and end minus begin (modulo 2^64) as eight big-endian bytes offset by 2^63, and the id; 'p', a parent and the id, for each parent |
| `LevelDb.SeekSplits` | htrace-htraced/go/src/htrace/htraced/datastore.go:1041-1046 | a seek lands so that exactly the keys before the position are below the target |
| `Index.FindSpan` | htrace-htraced/go/src/htrace/htraced/datastore.go:692-712 | returns the stored span with the id, or nothing exactly when no span with that id is stored |
| `Index.WrittenFinds` | htrace-htraced/go/src/htrace/htraced/datastore.go:246-279 | a write changes the id-to-span map at one id and nowhere else |
| `Index.DeletedFinds` | htrace-htraced/go/src/htrace/htraced/datastore.go:198-225 | a delete removes one id from the id-to-span map and leaves every other id alone |
| `Index.WriteExactIff` | htrace-htraced/go/src/htrace/htraced/datastore.go:246-279 | starting from an exact key set, a write leaves it exact if and only if the new version has every key of the version it replaces |
| `Index.DeleteExactIff` | htrace-htraced/go/src/htrace/htraced/datastore.go:198-225 | starting from an exact key set, a delete leaves it exact if and only if the deleted version names every key of the stored one |
| `Index.RunKeepsComplete` | htrace-htraced/go/src/htrace/htraced/datastore.go:198-279 | over every run of writes and deletes, each primary record keeps its begin, end, duration and parent keys |
| `Index.RunRefinesMap` | htrace-htraced/go/src/htrace/htraced/datastore.go:198-279 | every run equals the same run on a map from id to span, and without lossy rewrites the final key set is exactly the shard-info key plus the keys of the stored spans |
| `Index.ExactKeys` | htrace-htraced/go/src/htrace/htraced/datastore.go:198-279 | in an exact shard a key exists if and only if it is the shard-info key 'w' or spells, letter by letter and number by number, one of the keys of a stored span |
| `Index.ExactDetermined` | htrace-htraced/go/src/htrace/htraced/datastore.go:198-279 | two exact shards with the same spans have the same keys, whatever runs led there |
| `Shards.Shard.WriteSpan` | htrace-htraced/go/src/htrace/htraced/datastore.go:246-279 | one atomic batch adds the record and all index keys of the span; on a leveldb error nothing changes |
| `Shards.Shard.DeleteSpan` | htrace-htraced/go/src/htrace/htraced/datastore.go:198-225 | one atomic batch removes the record and the index keys of this version; on a leveldb error nothing changes |
| `Predicates.LoadPredicateData` | htrace-htraced/go/src/htrace/htraced/datastore.go:764-817 | succeeds if and only if the field exists, its text parses, the operation exists and is CONTAINS only for the description or the tracer id; the key is then the id, the flipped big-endian number or the text itself; which error is reported otherwise, a bad field or value before a bad operation |
| `Predicates.AcceptsIsHolds` | htrace-htraced/go/src/htrace/htraced/datastore.go:764-945 | comparing index bytes answers the predicate as asked: begin, end and end minus begin are compared as signed numbers, ids as byte strings, and CONTAINS means that the text is some part, text, rest |
| `Predicates.OccursIsPart` | htrace-htraced/go/src/htrace/htraced/datastore.go:908-916 | a string occurs in another exactly if the other is something, the string, and something |
| `Scans.ScanAscending` | htrace-htraced/go/src/htrace/htraced/datastore.go:1091-1173 | from any position an ascending scan yields exactly the listed spans from there on, once each, in index order; stopping early loses nothing |
| `Scans.ScanDescending` | htrace-htraced/go/src/htrace/htraced/datastore.go:1091-1191 | from any position a descending scan yields exactly the listed spans from there down, in reverse index order |
| `Scans.ScanFromSeek` | htrace-htraced/go/src/htrace/htraced/datastore.go:1041-1173 | the scan of an exact shard from a search key yields precisely the spans on the proper side of it, once each, in order |
| `Scans.SeekHitsInfoKey` | htrace-htraced/go/src/htrace/htraced/datastore.go:1041-1060 | a key that starts with any index prefix sorts before the shard-info record, so a seek into any index lands on a valid entry, on an empty store too |
| `Scans.PlainYields` | htrace-htraced/go/src/htrace/htraced/datastore.go:947-1060 | a plain scan yields every stored span that satisfies its predicate, except that LE on a time or the duration keeps only the least-id span among those equal to the bound |
| `Merging.BestIsBest` | htrace-htraced/go/src/htrace/htraced/datastore.go:864-890 | no buffered head comes before the chosen one, and ties go to the lowest shard |
| `Merging.MergeSorts` | htrace-htraced/go/src/htrace/htraced/datastore.go:1193-1210 | the k-way merge yields every span of every shard's scan exactly once, in result order |
| `Merging.OrderedListUnique` | htrace-htraced/go/src/htrace/htraced/datastore.go:864-890 | two lists in result order with the same members are the same list, so a membership statement determines the answer |
| `Sources.Source.PopulateNextFromShard` | htrace-htraced/go/src/htrace/htraced/datastore.go:1091-1173 | fills a shard's buffer with the next span of its scan and changes nothing of what the source still has to give |
| `Sources.Source.Next` | htrace-htraced/go/src/htrace/htraced/datastore.go:1193-1210 | returns the first span of the merge of what remains and leaves the rest of that merge, or nothing exactly when the merge is empty |
| `Sources.CreateSource` | htrace-htraced/go/src/htrace/htraced/datastore.go:947-1060 | opens one iterator per shard at the search key, with the predicate rewritten after `prev`; what remains is the merge of the shards' scans |
| `Queries.DataStore.ObtainSource` | htrace-htraced/go/src/htrace/htraced/datastore.go:1233-1253 | takes the first indexed predicate as the source, or the span-id scan from zero, and leaves the others in order |
| `Queries.LoadAll` | htrace-htraced/go/src/htrace/htraced/datastore.go:1258-1265 | loading succeeds if and only if every predicate loads, each in its place; an error is that of the first predicate that does not, all before it loading |
| `Queries.SourceIsFirstIndexed` | htrace-htraced/go/src/htrace/htraced/datastore.go:1233-1253 | the source is the first predicate on an id, a time or the duration, and with none the ids from zero up |
| `Queries.DataStore.HandleQuery` | htrace-htraced/go/src/htrace/htraced/datastore.go:1255-1314 | answers if and only if every predicate loads, and then with the first `lim` spans of the unlimited list; otherwise with the error of the first predicate that does not load |
| `Answers.UnlimitedMeans` | htrace-htraced/go/src/htrace/htraced/datastore.go:947-1314 | the unlimited answer holds the spans yielded by some shard that pass the remaining predicates, once each, in result order |
| `Answers.QueryIsFilterIff` | htrace-htraced/go/src/htrace/htraced/datastore.go:947-1314 | over any store with exact indexes, any number of shards and any predicates, a first page is the naive filter over the stored spans if and only if no matching span is a non-least tie at the bound of an LE source on a time or the duration; it always is for EQ, GE, GT, LE on the span id and the default scan |
| `Answers.LessOrEqualComplete` | htrace-htraced/go/src/htrace/htraced/datastore.go:1041-1191 | LE on a time or the duration is complete if and only if no shard holds two spans equal to the bound |
| `Answers.QueryAnswer` | htrace-htraced/go/src/htrace/htraced/datastore.go:1255-1314 | in the client's terms, for every query whose predicates load: the answer is a prefix, of the length the limit allows, of a list that is the stored spans that satisfy every predicate as written, once each, in order (of begin, end, end minus begin or id as numbers, then shard, then id; downwards for LE), if and only if no such span is missed at the bound of an LE source |
| `Answers.AnswerUnique` | htrace-htraced/go/src/htrace/htraced/datastore.go:1255-1314 | at most one list is the answer in that sense |
| `Paging.Continue` | htrace-htraced/go/src/htrace/htraced/datastore.go:973-1046 | for a span-id source, the query continued after its n-th result returns exactly the results after the n-th |
| `Paging.PagingExact` | htrace-htraced/go/src/htrace/htraced/datastore.go:973-1046 | for a span-id source and any limit of at least one, the pages read until an empty one concatenate to the unlimited answer: nothing lost, nothing repeated |
| `SecondaryPaging.GreaterContinuesIff` | htrace-htraced/go/src/htrace/htraced/datastore.go:1003-1034 | from any page, GE or GT on a time or the duration continues without loss after a result if and only if that result is the last of its stored matching ties, that is, the next result has a different field value |
| `SecondaryPaging.GreaterPagingIff` | htrace-htraced/go/src/htrace/htraced/datastore.go:1003-1034 | paging through such a query with any limit of at least one gathers the whole answer if and only if no page boundary, at a multiple of the limit, falls between two results of one field value |
| `SecondaryPaging.DescendingYields` | htrace-htraced/go/src/htrace/htraced/datastore.go:1041-1191 | a descending scan that starts at an id among the ties of its bound yields everything below the bound and, of the ties, those below that id and the first at or after it |
| `SecondaryPaging.LessOrEqualContinuesIff` | htrace-htraced/go/src/htrace/htraced/datastore.go:1003-1034 | from any page, LE on a time or the duration continues without loss after a result if and only if, among the stored matching ties of that result and shard by shard, those the scan reaches from the id just below it are those that come later in the answer |
| `SecondaryPaging.LessOrEqualRepeats` | htrace-htraced/go/src/htrace/htraced/datastore.go:1003-1034 | LE on a time or the duration, continued after a result of any page, returns that result again unless its shard holds the next lower id under the same field value |
| `SecondaryPaging.LessOrEqualNeedsTie` | htrace-htraced/go/src/htrace/htraced/datastore.go:1003-1034 | so such a query can continue without loss only if a span with the very next lower id and the same field value is stored in the same shard |
| `SecondaryPaging.EqualsContinuesIff` | htrace-htraced/go/src/htrace/htraced/datastore.go:1003-1034 | from any page, EQ on a time or the duration continues without loss if and only if the last id is not the greatest id and, among its stored matching ties on the page, those that come later are exactly those with greater ids |
| `SecondaryRuns.EqualsPagingIff` | htrace-htraced/go/src/htrace/htraced/datastore.go:1003-1034 | paging through such a query with any limit of at least one comes to an end with the whole answer if and only if every page, the last included, ends with an id above all earlier ones, below all later ones, and not the greatest there is |
| `SecondaryRuns.LessOrEqualNeverEnds` | htrace-htraced/go/src/htrace/htraced/datastore.go:1003-1034 | paging through a LE query on a time or the duration that has a result never reaches an empty page, for any limit of at least one, any shards and any page, unless another predicate rejects the tie just below a result |
| `SecondaryRuns.LessOrEqualAloneNeverEnds` | htrace-htraced/go/src/htrace/htraced/datastore.go:1003-1034 | so a query of that one predicate never does, on any store |
| `Dump.DumpAll` | htrace-htraced/go/src/htrace/client/client.go:251-280 | terminates and emits every stored span exactly once in ascending id order, for every limit of at least one and every store without the all-0xff id |
| `Dump.NextPage` | htrace-htraced/go/src/htrace/client/client.go:251-280 | asking from the successor of the n-th id on gives the results after the n-th |
| `Dump.DumpNeverEnds` | htrace-htraced/go/src/htrace/client/client.go:251-280 | with the all-0xff id stored and a limit of at least one, a next non-empty page follows every page, for ever |
| `Reaping.Reaper.HandleHeartbeat` | htrace-htraced/go/src/htrace/htraced/datastore.go:386-409 | for every clock reading the date becomes the later of itself and the clock less the expiry; the reaper keeps the date that DateIsLatest describes, with the expiry configured where one is (EnabledExpiry) |
| `Reaping.Reaper.SetReaperDate` | htrace-htraced/go/src/htrace/htraced/datastore.go:417-421 | sets the date and starts a new run of heartbeats |
| `Reaping.NoWrap` | htrace-htraced/go/src/htrace/common/time.go:26-28 | no nanosecond clock, scaled to milliseconds, and no expiry the reaper accepts make the subtraction leave int64 |
| `Reaping.DateIsLatest` | htrace-htraced/go/src/htrace/htraced/datastore.go:386-409 | over every run of heartbeats since the date was last set (zero at first), however the clock jumps, the date is the later of that and the latest clock seen less the expiry |
| `Reaping.DisabledExpiry` | htrace-htraced/go/src/htrace/htraced/datastore.go:342-369 | a disabled expiry keeps the date at zero whatever the clock shows, and no span counts as expired |
| `Reaping.EnabledExpiry` | htrace-htraced/go/src/htrace/htraced/datastore.go:342-409 | a configured expiry of c ms, 0 < c < the maximum: after any readings the date is max(0, latest clock - c), and a visible span counts as expired exactly if it began more than c before the latest reading |
| `Reaping.UnixMsTruncates` | htrace-htraced/go/src/htrace/common/time.go:26-28 | milliseconds are the nanoseconds over 10^6, rounded toward zero |
| `Reaping.ReaperYields` | htrace-htraced/go/src/htrace/htraced/datastore.go:1062-1088 | the reaper's scan yields exactly the stored spans with begin > 0, and those with begin = 0 whose id starts at 0x80 or above (the seek key is doubled) |
| `StrayKeys.ReapMeans` | htrace-htraced/go/src/htrace/htraced/datastore.go:153-194 | which spans a whole pass deletes, on any key set: exactly those some key in reach leads to, when neither that key nor any key in reach before it is no begin key, leads to no span or to one that began outside [0, date), or repeats an id |
| `StrayKeys.ExactReaps` | htrace-htraced/go/src/htrace/htraced/datastore.go:153-194 | on an exact index that is exactly the expired visible spans |
| `Pruning.PruneExpired` | htrace-htraced/go/src/htrace/htraced/datastore.go:153-194 | deletes only stored spans with 0 <= begin < date, counts each once, and without db errors deletes exactly those ReapMeans names; on an exact index each is expired and visible even after a db error, and without one all such spans go and the index stays exact |
| `Children.FindInShard` | htrace-htraced/go/src/htrace/htraced/datastore.go:281-304 | appends the ids a shard lists under a parent, in order, up to the limit, and counts the limit down by as many |
| `Children.ChildListExactIff` | htrace-htraced/go/src/htrace/htraced/datastore.go:281-304 | on an exact index a shard's list is ascending without repetition, and holds exactly the stored children if and only if no parent id of another length makes a look-alike key |
| `Children.FindChildren` | htrace-htraced/go/src/htrace/htraced/datastore.go:731-757 | the ring walk ends after at most one lap and returns the first `lim` ids of the shards' lists joined from the parent's own shard, the hash modulo the number of shards, on |
| `Children.ChildrenFound` | htrace-htraced/go/src/htrace/htraced/datastore.go:731-757 | without look-alike parent keys, from any starting shard the result holds distinct ids of stored children only, exactly min(lim, number of children) of them, and all of them for a negative limit |
| `Children.ChildrenExactIff` | htrace-htraced/go/src/htrace/htraced/datastore.go:731-757 | without a limit the walk finds exactly the children if and only if no shard holds a look-alike key |
| `Ingest.SpanIngestor.IngestSpan` | htrace-htraced/go/src/htrace/htraced/datastore.go:606-662 | counts the span; drops an id that is not 16 bytes or all zero, and an unencodable span; else appends it to its shard's batch, under the ingestor's address and unchanged but for an empty tracer id, which becomes the default, and sends the batch when full |
| `Ingest.SpanIngestor.Close` | htrace-htraced/go/src/htrace/htraced/datastore.go:664-682 | sends every non-empty batch and no empty one, then adds the totals to the global and the host's counters and the latency to the recent ones |
| `Ingest.ProcessBatch` | htrace-htraced/go/src/htrace/htraced/datastore.go:113-151 | writes each span of a batch in order, and adds the numbers written and dropped to the global counters and to those of the batch's host |
| `Ingest.SentIsDue` | htrace-htraced/go/src/htrace/htraced/datastore.go:606-662 | after any calls, batches sent to a shard and the batch in hand together are the valid, encodable spans that hash there, in order |
| `Ingest.ClosedSendsAll` | htrace-htraced/go/src/htrace/htraced/datastore.go:606-686 | over any calls, a closed ingestor has sent to a shard exactly the received spans with a 16-byte, non-zero id that hashes there and that encode, once each and in order, every field but an empty tracer id as received; batches are of 127 spans but for a last, shorter one |
| `Ingest.DueIsHandedOn` | htrace-htraced/go/src/htrace/htraced/datastore.go:606-662 | what is due to a shard, in terms of the calls alone: entry for call, the same id and data, and the received tracer id or, if that is empty, the default |
| `Ingest.CallsCounted` | htrace-htraced/go/src/htrace/htraced/datastore.go:606-636 | the totals are the number of calls and the number of those whose span could not be sent |
| `Pipeline.ReceiveIsIngestSpan` | htrace-htraced/go/src/htrace/htraced/datastore.go:606-662 | the channel step of the state machine is what IngestSpan does to the queue |
| `Pipeline.BatchInOneGo` | htrace-htraced/go/src/htrace/htraced/datastore.go:119-145 | a worker's steps on a batch, taken without interruption, have exactly the effect that ProcessBatch states |
| `Pipeline.StepStream` | htrace-htraced/go/src/htrace/htraced/datastore.go:113-151 | no single send, receive or write reorders, repeats or loses an entry on its way to a shard; only sends add to it |
| `Pipeline.RunDelivers` | htrace-htraced/go/src/htrace/htraced/datastore.go:606-686 | over every interleaving, for each ingestor and shard: what it has sent there and still holds is, in order, exactly its accepted spans that hash there |
| `Conservation.RunLedger` | htrace-htraced/go/src/htrace/htraced/datastore.go:113-151 | over every interleaving and per shard, as multisets: entries processed, in the worker's hands, in the channel and in the ingestors' hands are those present at the start plus those accepted since |
| `Conservation.StepConserves` | htrace-htraced/go/src/htrace/htraced/datastore.go:113-151 | every single channel operation, database write or counter update keeps: ingested plus sent by ingestors not yet counted = written + dropped + in channels or uncounted batches |
| `Conservation.RunInvariant` | htrace-htraced/go/src/htrace/htraced/datastore.go:113-151 | over every interleaving the counters balance, no batch in a channel is empty, and every span on its way or stored is in the shard its id hashes to, with its index |
| `Conservation.Drained` | htrace-htraced/go/src/htrace/htraced/datastore.go:606-686 | when a run of a fresh store ends with all ingestors closed, channels empty and workers idle, ingested = written + dropped, and each shard has processed exactly the spans due to it, each ingestor's in order |
| `Accounts.RunCalls` | htrace-htraced/go/src/htrace/htraced/datastore.go:606-662 | over every interleaving the machine's ingestors and their calls are those of the run's events, in order |
| `Accounts.RunCounts` | htrace-htraced/go/src/htrace/htraced/metrics.go:79-127 | over every interleaving: ingested, written and dropped, with what is counted but not yet reported, are the numbers of spans received, of successful writes, and of spans that could not be sent or written |
| `Accounts.RunAccounted` | htrace-htraced/go/src/htrace/htraced/datastore.go:113-151 | for every run of a fresh store that ends quiet, from its events alone: the counters are those numbers, and each shard has tried to write, of what each ingestor received, exactly the spans that hash there, in order, unchanged but for an empty tracer id |
| `Conservation.RunIsIndexRun` | htrace-htraced/go/src/htrace/htraced/datastore.go:113-279 | over every interleaving a shard's database undergoes exactly its worker's successful writes and deletes, in order, all of them allowed |
| `Conservation.RunBuildsGoodStore` | htrace-htraced/go/src/htrace/htraced/datastore.go:113-279 | so its id-to-span map is the plain replay of them; and if no span is replaced by one lacking some of its keys, all indexes end exact and routed, as the query theorems require |
| `Metrics.CircBufU32.Append` | htrace-htraced/go/src/htrace/htraced/metrics.go:185-194 | after any appends the window holds the last min(n, size) values |
| `Metrics.CircBufU32.Max` | htrace-htraced/go/src/htrace/htraced/metrics.go:167-175 | the greatest of the last min(n, size) values; zero before any append |
| `Metrics.CircBufU32.Average` | htrace-htraced/go/src/htrace/htraced/metrics.go:177-183 | the floored mean of the last min(n, size) values without 64-bit overflow; zero before any append |
| `Metrics.MetricsSink.UpdateSpanMetrics` | htrace-htraced/go/src/htrace/htraced/metrics.go:97-117 | adds to the host's own counters, evicts at most one other host and none if the host is known or there is room, keeps at most max(1, maxMtx) hosts, and the hosts' sums stay within the global counters |
| `Metrics.MetricsSink.UpdateIngested` | htrace-htraced/go/src/htrace/htraced/metrics.go:79-95 | raises the global counters and the host's dropped count, and records the latency in whole milliseconds, capped; keeps the accounting invariant |
| `Metrics.MetricsSink.UpdatePersisted` | htrace-htraced/go/src/htrace/htraced/metrics.go:119-127 | raises the global counters and the host's by the numbers written and dropped; keeps the accounting invariant |
| `Loader.DataStoreLoader.VerifyShardInfos` | htrace-htraced/go/src/htrace/htraced/loader.go:219-301 | succeeds if and only if all shards are empty or their descriptions number them 0..n-1 once each for one daemon and layout; then the list is the permutation with index i at place i; it panics exactly when only the unchecked first index is out of range |
| `Loader.OrderDoesNotMatter` | htrace-htraced/go/src/htrace/htraced/loader.go:219-301 | however the directories are listed, the same shards end up in the same places |
| `Loader.DataStoreLoader.Load` | htrace-htraced/go/src/htrace/htraced/loader.go:303-360 | a consistent store comes up in order with the disk untouched; a wholly empty one with distinct directories and no create error is initialised in the order of configuration; nothing else succeeds |
| `Loader.LoadOneFinds` | htrace-htraced/go/src/htrace/htraced/loader.go:408-493 | what reading a directory finds: nothing and no error exactly if it can be read and holds no leveldb; a description exactly if it holds one under the key 'w' and no earlier entry names the directory |
| `Loader.AllEmptyIff` | htrace-htraced/go/src/htrace/htraced/loader.go:303-360 | a store is taken to be new exactly if directories are given, all can be read, and none holds a leveldb |
| `Loader.DataStoreLoader.CreateShards` | htrace-htraced/go/src/htrace/htraced/loader.go:325-355 | writes shard i its description with index i into a new database; succeeds only if all directories differ |
| `Restart.InitializedIsFresh` | htrace-htraced/go/src/htrace/htraced/loader.go:325-355 | the shards so created make the fresh store that the pipeline theorems start from |
| `Restart.ReloadRestoresOrder` | htrace-htraced/go/src/htrace/htraced/loader.go:219-301 | listed in any order, the directories of such a store load, and shard i comes out at place i |
| `Restart.RestartFindsSame` | htrace-htraced/go/src/htrace/htraced/loader.go:303-360 | create a store, run it in any interleaving, stop, and permute the directories: the load succeeds, and every id is found in its routed shard exactly as before |
| `HashTable.InsertInternal` | htrace-c/src/util/htable.c:60-78 | the probe loop terminates at a free slot, keeps every probe chain, and adds exactly one entry |
| `HashTable.CopyEntries` | htrace-c/src/util/htable.c:80-101 | rehashing moves every entry, with repetitions, and builds sound probe chains |
| `HashTable.RoundUpIsLeastPower` | htrace-c/src/util/htable.c:103-113 | the bit trick gives the least power of two not below the argument, and zero for zero and for arguments above 2^31 |
| `HashTable.HTable.Realloc` | htrace-c/src/util/htable.c:80-101 | grows the table with its contents unchanged, or fails and changes nothing |
| `HashTable.HTable.Put` | htrace-c/src/util/htable.c:158-186 | refuses NULL, doubles the capacity exactly when half the slots would be used, and adds exactly the pair; undefined exactly when the 32-bit capacity would overflow |
| `HashTable.HTable.GetInternal` | htrace-c/src/util/htable.c:188-214 | the probe loop terminates and finds a slot with the key, or none exactly when no slot holds it |
| `HashTable.HTable.Get` | htrace-c/src/util/htable.c:216-224 | answers a value that was put under the key, or NULL exactly when none was, after any puts and rehashes |
| `HashTable.DistinctKeysMakeAMap` | htrace-c/src/util/htable.c:158-224 | after puts under distinct keys the only possible answer is the map's |
| `Contexts.Ctx.Write` | htrace-c/src/util/cmp_util.c:30-67 | counts or copies the data; a checked buffer keeps the part that fits; bytes outside the written part stay as they were |
| `Contexts.Ctx.Read` | htrace-c/src/util/cmp_util.c:69-82 | copies as many bytes as are left, up to the request, and advances by as many |
| `Contexts.KeptChain` | htrace-c/src/util/cmp_util.c:30-67 | writing two pieces is writing their concatenation, and after an overflow nothing more is kept |
| `Msgpack.HeaderInverse` | htrace-c/src/util/cmp.c:987-1065 | for every complete input whose first byte is not 0xc1, writing the object that was read gives back exactly the bytes consumed, for all 35 types, and the first byte is the one the MessagePack specification assigns to the type |
| `Msgpack.EncodeFollowsTable` | htrace-c/src/util/cmp.c:33-70 | every written header starts with the byte that the specification's table assigns to its type, a small value or length in that byte itself; the number follows big-endian, an extension's type after it |
| `Msgpack.ParseFollowsTable` | htrace-c/src/util/cmp.c:33-70 | a complete header is read as an object of a type if and only if the table assigns its first byte to that type |
| `Msgpack.ObjectRoundTripIff` | htrace-c/src/util/cmp.c:1919-2209 | an object reads back as itself, whatever follows, if and only if its header can carry its value or length |
| `Msgpack.IntShortest` | htrace-c/src/util/cmp.c:338-402 | no encoding of the int format family for the same integer is shorter than the one the generic writers choose |
| `Msgpack.HeaderShortest` | htrace-c/src/util/cmp.c:549-666 | no other header for a string or byte array of the same length is shorter than the one the generic writers choose |
| `Msgpack.IntRoundTrip` | htrace-c/src/util/cmp.c:1261-1300 | every uint64 and int64 reads back, as ulong if and only if not negative and as long if and only if below 2^63, with the rest untouched |
| `Msgpack.StrRoundTrip` | htrace-c/src/util/cmp.c:1573-1596 | a written string reads back with the rest untouched if and only if it is non-empty and fits the caller's buffer (the size check wraps at 2^32 - 1) |
| `Msgpack.BinRoundTrip` | htrace-c/src/util/cmp.c:1614-1632 | a written byte array reads back with the rest untouched if and only if it is non-empty and fits the caller's buffer |
| `Cmp.WriteObject` | htrace-c/src/util/cmp.c:987-1065 | emits exactly the object's encoding, which starts with its type's byte in the specification's table, where there is room, and a truncation of it otherwise; a value unfit for its type is refused and nothing is written |
| `Cmp.WriteUint` | htrace-c/src/util/cmp.c:391-402 | emits the shortest encoding of the number |
| `Cmp.WriteSint` | htrace-c/src/util/cmp.c:338-351 | emits the shortest encoding of the number |
| `Cmp.WriteStr` | htrace-c/src/util/cmp.c:560-569 | emits the header for the length and then the bytes |
| `Cmp.WriteBin` | htrace-c/src/util/cmp.c:659-666 | emits the header for the length and then the bytes |
| `Cmp.ReadObject` | htrace-c/src/util/cmp.c:1919-2209 | consumes exactly one complete header and succeeds, with an object of the type the table gives for the first byte; fails on no input, on a missing number, on a missing extension type and on 0xc1, each with the source's error code |
| `Cmp.ReadErrorMeans` | htrace-c/src/util/cmp.c:1919-2209 | the error when the number after a marker is missing, by the type the table gives |
| `Cmp.ReadUlong` | htrace-c/src/util/cmp.c:1441-1465 | accepts exactly the unsigned types and returns their value |
| `Cmp.ReadLong` | htrace-c/src/util/cmp.c:1261-1300 | accepts exactly the integer types whose value fits int64 and returns the value |
| `Cmp.ReadStr` | htrace-c/src/util/cmp.c:1573-1596 | returns the announced bytes, or reports the wrong type, the size that was too long, or missing data |
| `Cmp.ReadBin` | htrace-c/src/util/cmp.c:1614-1632 | returns the announced bytes, or reports the wrong type, excess length or missing data |
| `SpanCodec.CompareIsByteOrder` | htrace-c/src/core/span_id.c:202-218 | the C comparison of two ids is the byte order of their wire forms, in all three outcomes |
| `SpanCodec.IdRoundTrip` | htrace-c/src/core/span_id.c:130-183 | every id reads back from the wire, whatever follows |
| `SpanCodec.WriteId` | htrace-c/src/core/span_id.c:130-152 | emits the id as a 16-byte array |
| `SpanCodec.ReadId` | htrace-c/src/core/span_id.c:154-183 | reads a 16-byte array into the two halves and refuses an array of any other announced length |
| `SpanCodec.WriteSpan` | htrace-c/src/core/span.c:184-255 | over any context with room emits the same byte string, so the counting pass counts exactly what the copying pass writes; a checked buffer keeps a truncation |
| `WireFormat.SpanLayout` | htrace-c/src/core/span.c:184-255 | the bytes of every span, written out: a map16 and, under the letters a, d, b, e and, if present, r and p, a bin8, a str16, two uint64, a str16 and an array16 of bin8, lengths cut to 16 bits |
| `SpanReader.ReadsSpan` | htrace-c/src/test/span_util.c:358-450 | what the reader makes of any written span: lengths and the parent count arrive cut to 16 bits, and an empty string makes it fail |
| `SpanReader.KeyReadIff` | htrace-c/src/test/span_util.c:262-285 | a key of one to seven bytes is read as its first letter, and no other |
| `SpanReader.SpanRoundTripIff` | htrace-c/src/test/span_util.c:358-450 | a span reads back as itself with the rest untouched if and only if description and tracer id are 1 to 65535 bytes long and there are fewer than 65536 parents |
| `Receiver.SpanBuffer.AddSpan` | htrace-c/src/receiver/htraced.c:595-647 | if and only if the span fits, the unchecked copy stays inside the counted space; then all other bytes keep their values and the used part is the concatenation of the spans added |
| `Receiver.BufferReadsBack` | htrace-c/src/receiver/htraced.c:608-647 | a buffer of such spans reads back as the same spans in order |
| `Parents.ParentList.SortAndDedupe` | htrace-c/src/core/span.c:80-115 | the parents become strictly ascending with the same set of ids, in the one-element form when one is left, whether or not the shrinking realloc succeeds |
| `Parents.AscendingUnique` | htrace-c/src/core/span.c:80-115 | a strictly ascending list is determined by its set of ids, so the outcome is unique |
| `Utf8.ValidateJsonString` | htrace-c/src/util/string.c:58-106 | accepts if and only if the bytes before the terminator are the UTF-8 encoding of allowed code points of the basic multilingual plane; no byte after the terminator is read |
| `Utf8.DecodingUnique` | htrace-c/src/util/string.c:58-106 | an accepted string spells exactly one list of code points |
| `Witnesses.LessOrEqualLosesATie` | htrace-htraced/go/src/htrace/htraced/datastore.go:1041-1191 | two spans with begin 5 in one shard: begin <= 5 does not return both |
| `Witnesses.GreaterOrEqualDropsATie` | htrace-htraced/go/src/htrace/htraced/datastore.go:1003-1034 | the same two: begin >= 5, continued after the first, does not return the second |
| `Witnesses.EqualsSkipsAShard` | htrace-htraced/go/src/htrace/htraced/datastore.go:1003-1034 | the same two in two shards: begin = 5, continued after the first, does not return the second |
| `Witnesses.LessOrEqualReturnsLastAgain` | htrace-htraced/go/src/htrace/htraced/datastore.go:1003-1034 | one span: begin <= 5, continued after it, returns it again |
| `Witnesses.RewriteLeavesAKey` | htrace-htraced/go/src/htrace/htraced/datastore.go:246-279 | an id written again with another begin time keeps its old begin key |
| `Witnesses.ReaperOverlooksZero` | htrace-htraced/go/src/htrace/htraced/datastore.go:1062-1088 | a span with begin 0 and id 0x01... outlives every prune, db errors or not |
| `Witnesses.StrayKeyShieldsOldSpans` | htrace-htraced/go/src/htrace/htraced/datastore.go:153-194 | a begin key left by a rewrite, now leading to a newer span, keeps an expired span alive |
| `Witnesses.DumpOfGreatestId` | htrace-htraced/go/src/htrace/client/client.go:251-280 | a store with one span under the all-0xff id keeps the dump going for any number of rounds |
| `Witnesses.LongParentLooksAlike` | htrace-htraced/go/src/htrace/htraced/datastore.go:281-304 | a 17-byte parent id makes its span appear under the 16-byte id it starts with |
| `Witnesses.FirstIndexUnchecked` | htrace-htraced/go/src/htrace/htraced/loader.go:219-301 | a single shard numbered 5 passes every check and then panics |
| `Witnesses.DescriptionsThatDoNotReadBack` | htrace-c/src/test/span_util.c:358-450 | an empty description and one of 65536 bytes do not read back |

## Left out

- Receiver.SpanBuffer.AddSpan: says when a span does not fit, not what the overrun does; the source then leaves its one-pass retry loop and copies past the end (htrace-c/src/receiver/htraced.c:618-638).
- Dump.DumpAll: the store stays unchanged during the dump, and the text form of an id is assumed to read back.
- Queries.DataStore.HandleQuery: the store stays unchanged during a query; the limit is a natural number (the source panics on a negative one); read statistics and the source's debug output are not modelled.
- Pruning.PruneExpired: the shard is pruned alone; its worker, which also does the writes, is busy with the prune meanwhile.
- Children.FindChildren: the limit is an unbounded integer, so the wrap of an int32 counted down from a negative limit is not modelled.
- Metrics.MetricsSink.UpdateIngested: the 64-bit counters do not wrap, and the evicted host is any host other than the one updated, as the order of Go's map iteration leaves open.
- Pipeline.StepStream: channels are unbounded queues, so blocking on a full channel is not modelled; a call of `IngestSpan`, which makes at most one send and is otherwise local to its ingestor, is one step.
- Loader.DataStoreLoader.Load: clearing stored data, directory creation and file-descriptor limits are not modelled; file-system and leveldb errors are parameters.
- Parents.ParentList.SortAndDedupe: `qsort` is a sorting function; the union of one parent and the parent list is two fields.
- HashTable.HTable.Put: says when the 32-bit capacity overflows, not what the table then does; keys that the source compares with its equality function are equal values here.
- Msgpack.HeaderInverse: byte swaps on little-endian hosts are not modelled; numbers are taken by value and written most significant byte first. Floats are their bit patterns.
- Cmp.ReadStr: the destination is a value, not the caller's memory; bytes that a short read leaves in place are an arbitrary parameter.
- leveldb, the Go msgpack and JSON libraries and the FNV hash: an ordered map with sorted iteration, values kept in decoded form, parser functions and a routing function as parameters. Database errors are boolean parameters.
- A parent or span key shorter than the prefix byte: leveldb keys are taken to have the shape the store gives them.
- `htable_pop`, `htable_visit` and the string hash of the C hash table.
- `cmp_read_ufix` and the readers of single integer types other than u64, extension readers with data, and the object type tests.
- The sender thread, HRPC framing, conf parsing, samplers, scopes, tracer ids and logging of the C client.
- HTTP and HRPC servers, configuration, heartbeat timers, the command line tools, the Java library and the web application.
- Ingestors abandoned without `Close` after a decode error keep their unsent batches; conservation is stated for the closed ones.
