# Hashiverse in Dafny

Models of the self-contained algorithms and protocols of Hashiverse, a distributed social network, with proofs over
every input, every run or every reachable state. One Dafny file stands for one source file:

| file | models | main results |
|---|---|---|
| `XorMetric.dfy`, `Randomness.dfy` | bit counting, the DHT's agreement measure, rejection sampling, the shuffle | the agreement is an ultrametric and orders XOR distance; the shuffle is a bijection from draws to permutations; rejection sampling is exactly fair |
| `PlainTextPost.dfy` | plain text to post HTML | a reader recovers the text from the HTML; hashtags, their attributes and mentions are exactly those of the raw text; no foreign markup |
| `Calendar.dfy`, `TimeMillis.dfy`, `DurationMillis.dfy` | printed instants and durations | exactly when each parser inverts its printer, over every `i64` |
| `Buckets.dfy`, `BucketVisitor.dfy`, `BucketCallbacks.dfy`, `BucketSaturation.dfy` | bucket locations, the bucket ladder and its descent | attribute round trip and panics, exactly; what a location id depends on; what any callbacks make of the descent; exactly when a full one opens every minute bucket once |
| `MemTransport.dfy`, `TransportRuns.dfy` | the in-memory transport, as a system of steps | a successful rpc returns the answer a handler listening on its port gave to its own request; requests keep their order; registry, lifecycle and shutdown in every reachable state; a cancelled server can always finish |
| `TimelineControl.dfy` | paging guarded by generations | visible pages belong to the current generation; exactly when a request goes out and what its answer shows; the list mixes timelines exactly through requests issued between a render and its effect |
| `BytesGatherer.dfy` | the segmented buffer | every run of operations appends to one byte string; `compact` keeps bytes and large segments |
| `KeyOrder.dfy`, `FeedbackStore.dfy` | composite keys, prefix scans, strongest-wins updates, batch deletes | after any run a slot holds the strongest proof since the last delete |
| `Encryption.dfy` | encryption for several passwords | exact layout; a password is accepted exactly when it derives a recipient's key; exactly which altered ciphertexts still decrypt; no slice out of range |
| `Pow.dfy`, `Identity.dfy` | proof of work, server identities, signed peers | a new identity verifies exactly when its work suffices; its peer verifies exactly when it does, and exactly which alterations of a signed peer are refused; encode and decode are inverse |
| `HyperLogLog.dfy` | register sketches | registers are the greatest rho of the set of items; merging is concatenating |

`Results.dfy`, `Panics.dfy`, `Sequences.dfy`, `Bytes.dfy`, `Arith.dfy`, `Text.dfy`, `Utf8.dfy` and `Ids.dfy` hold what they
share. Methods follow the source's loops and updates and are proved against functions; the lemmas then say what those
functions mean.

## Reading the models

- Randomness, clocks, hashing, key derivation, signatures and the character tables are parameters: the draws an
  algorithm consumes are a sequence, and primitives are functions held in a datatype whose assumptions are one
  predicate (`Sound` or `Sane`). What is assumed beyond that, of one ciphertext or of one signed peer, is a hypothesis of the
  lemma that needs it.
- Panics are outcomes where a caller can provoke them: `BucketLocation::new` and `from_html_attr` divide by a duration
  that may be zero, and `TimeMillis::parse` slices at byte offsets that may lie inside a character
  (`Buckets.AttrPanicsExactly`).
- The end of a bucket walk is called tame when it starts a root bucket, or when the second-level bucket around it ends
  within `i64`. Sums may saturate below a tame end, but no bucket is moved by it.
- `mem_transport.rs` is a step system. A step is what one task does between two awaits or under one lock; `Enabled`
  says when it may happen, `Perform` what it does, and a run is any sequence of enabled steps. Fields named `place`,
  `spot`, `listener` and `entry` record history only.

## Where the code differs from its comments or from what one might expect

- `hyper_log_log.rs` line 47 speaks of zeros counted from bit 6 onward; the code counts in bytes 1 to 8, and so does the model.
- `TimeMillis::parse` does not invert `Display` for every instant the calendar holds: it fails for years from -99 to 999,
  whose text is too short, and when the millisecond part is -100 or below, whose text is too wide.
  `TimeMillis.ParseInvertsDisplay` gives the exact condition; all instants since the epoch satisfy it.
- `DurationMillis` prints the least `i64` with a saturated magnitude, so that it alone is not read back.
- Between a render with a new timeline key and its effect, a load-more still runs under the old generation with the new
  timeline's refs. `TimelineControl.GapMixesTimelines` is such a run with posts of both on the screen;
  `ListMixesExactlyFromGaps` says that a foreign post is visible exactly when its page was requested in such a gap.
- Near the end of `i64` the bucket walk's saturating sums leave the grid, and minutes are missed or opened outside their
  root bucket (`BucketSaturation.FullDescentTiles`).
- `Peer.version` is not among the signed bytes (`Identity.VersionIsNotSigned`).
- `encryption.rs` lines 18-19 say that tampering anywhere after the header is caught. Changing another recipient's slot is
  not (`Encryption.OtherSlotsMayChange`); but no change makes any other text come out (`TamperingIsCaughtExactly`).
- `BucketLocation::validate` accepts a bucket time that is not rounded when it rounds to the right one
  (`Buckets.ValidateRefusesChanges`).

## Model

| member | source | states |
|---|---|---|
| XorMetric.CountLeadingZeroBits | hashiverse-rust/hashiverse-lib/src/tools/tools.rs:119-139 | the loop over bytes and masks returns the number of leading zero bits, capped at 255 |
| XorMetric.LeadingAgreementBitsXor | hashiverse-rust/hashiverse-lib/src/tools/tools.rs:152-170 | the loop returns the agreement of the two keys, also for keys of different lengths |
| XorMetric.ReverseBytes | hashiverse-rust/hashiverse-lib/src/tools/tools.rs:63-69 | byte i of the new array is byte n-1-i of the old one |
| XorMetric.AgreementIsCommonPrefix | hashiverse-rust/hashiverse-lib/src/tools/tools.rs:152-170 | all bits before the agreement are equal and the bit at it differs |
| XorMetric.CommonPrefixIsAgreement | hashiverse-rust/hashiverse-lib/src/tools/tools.rs:152-170 | only the agreement has that property, so it is a complete specification |
| XorMetric.AgreementIsUltrametric | hashiverse-rust/hashiverse-lib/src/tools/tools.rs:152-170 | symmetric; agree(a,c) is at least the smaller of the other two; maximal exactly for equal keys |
| XorMetric.AgreementIsIsosceles | hashiverse-rust/hashiverse-lib/src/tools/tools.rs:152-170 | of three agreements the two smallest are equal |
| XorMetric.HigherAgreementIsNearer | hashiverse-rust/hashiverse-lib/src/tools/tools.rs:152-170 | strictly higher agreement with a target means strictly smaller big-endian XOR distance to it |
| XorMetric.LeadingZerosOfXor | hashiverse-rust/hashiverse-lib/src/tools/tools.rs:119-170 | the leading zeros of the XOR of two keys are their agreement, so the counting loop and the comparing loop agree |
| XorMetric.LeadingZeroBytes | hashiverse-rust/hashiverse-lib/src/tools/tools.rs:63-139 | every whole byte counted is zero, and is a trailing zero of the reversed key |
| XorMetric.LeadingZerosAreMagnitude | hashiverse-rust/hashiverse-lib/src/tools/tools.rs:119-139 | the leading zeros place the key, read as one number, between two neighbouring powers of two |
| Randomness.RandomBounded | hashiverse-rust/hashiverse-lib/src/tools/tools.rs:85-96 | returns the first draw below the zone, reduced; every earlier draw was rejected; loops on exactly when none is accepted |
| Randomness.EqualShares | hashiverse-rust/hashiverse-lib/src/tools/tools.rs:85-96 | below a multiple of the bound every result has the same number of raw draws |
| Randomness.RejectionIsFair | hashiverse-rust/hashiverse-lib/src/tools/tools.rs:85-96 | every result has exactly zone / upper accepted draws, and at least half of all words are accepted |
| Randomness.Shuffle | hashiverse-rust/hashiverse-lib/src/tools/tools.rs:217-223 | the swaps in place leave the array as the shuffle of its old contents by the draws |
| Randomness.ShuffleKeepsMultiset | hashiverse-rust/hashiverse-lib/src/tools/tools.rs:217-223 | elements are only rearranged, duplicates included |
| Randomness.EveryPermutationIsDrawn | hashiverse-rust/hashiverse-lib/src/tools/tools.rs:217-223 | every rearrangement is reached, by the draws that `DrawsFor` computes |
| Randomness.DrawsAreDetermined | hashiverse-rust/hashiverse-lib/src/tools/tools.rs:217-223 | for distinct elements equal shuffles come from equal draws |
| Randomness.ShuffleIsBijective | hashiverse-rust/hashiverse-lib/src/tools/tools.rs:217-223 | for distinct elements each permutation arises from exactly one sequence of draws |
| PlainTextPost.HtmlEscape | hashiverse-rust/hashiverse-lib/src/tools/plain_text_post.rs:174-187 | the loop escapes every character |
| PlainTextPost.ConvertTextToHtml | hashiverse-rust/hashiverse-lib/src/tools/plain_text_post.rs:20-78 | the index loop computes the recursive scan of the escaped text; the markup it writes is pinned letter by letter in `HashtagText`, `MentionText` and `CharacterTexts` |
| PlainTextPost.ScanOne | hashiverse-rust/hashiverse-lib/src/tools/plain_text_post.rs:27-75 | one turn of the loop appends what the scan of the rest starts with, and moves on |
| PlainTextPost.SkipHex | hashiverse-rust/hashiverse-lib/src/tools/plain_text_post.rs:44-61 | the bounded hex loop recognises a mention exactly when the maximal hex run has 64 characters |
| PlainTextPost.TokensSpellText | hashiverse-rust/hashiverse-lib/src/tools/plain_text_post.rs:20-78 | the tokens of a raw text are well formed and spell it |
| PlainTextPost.RunOfEscaped | hashiverse-rust/hashiverse-lib/src/tools/plain_text_post.rs:20-49 | maximal runs of ordinary characters commute with escaping |
| PlainTextPost.ConvertRendersTokens | hashiverse-rust/hashiverse-lib/src/tools/plain_text_post.rs:20-105 | escaping first and scanning afterwards renders the tokens of the raw text |
| PlainTextPost.ReadAllRendered | hashiverse-rust/hashiverse-lib/src/tools/plain_text_post.rs:89-105 | reading rendered tokens back yields them, without carriage returns |
| PlainTextPost.ConversionIsLossless | hashiverse-rust/hashiverse-lib/src/tools/plain_text_post.rs:20-105 | for every text the reader recovers it from the HTML with every carriage return removed |
| PlainTextPost.HashtagsAreExact | hashiverse-rust/hashiverse-lib/src/tools/plain_text_post.rs:20-105 | the hashtag elements are exactly the non-empty maximal alphanumeric runs after `#` in the raw text, in order |
| PlainTextPost.AttributesAreLowered | hashiverse-rust/hashiverse-lib/src/tools/plain_text_post.rs:20-98 | the attributes of the hashtag elements are, in order, the lower-cased hashtags of the raw text |
| PlainTextPost.MentionsAreExact | hashiverse-rust/hashiverse-lib/src/tools/plain_text_post.rs:44-61 | the mention elements are exactly the maximal runs of 64 hexadecimal digits after `@` in the raw text, in order |
| PlainTextPost.HashtagText | hashiverse-rust/hashiverse-lib/src/tools/plain_text_post.rs:89-99 | the element a hashtag becomes, in full, with its attribute in lower case and its text as written |
| PlainTextPost.MentionText | hashiverse-rust/hashiverse-lib/src/tools/plain_text_post.rs:103-105 | the element that `@` with 64 hexadecimal digits becomes, in full |
| PlainTextPost.CharacterTexts | hashiverse-rust/hashiverse-lib/src/tools/plain_text_post.rs:62-187 | a newline becomes `<br>`, a carriage return nothing, and the four markup characters their entities |
| PlainTextPost.OthersAreCopied | hashiverse-rust/hashiverse-lib/src/tools/plain_text_post.rs:20-78 | every other single character is copied |
| PlainTextPost.HexDigits | hashiverse-rust/hashiverse-lib/src/tools/plain_text_post.rs:189-191 | which characters are hexadecimal digits |
| PlainTextPost.NoForeignMarkup | hashiverse-rust/hashiverse-lib/src/tools/plain_text_post.rs:20-105 | the number of `<` in the output is the number the rendered templates contain |
| Calendar.CalendarIsBijective | hashiverse-rust/hashiverse-lib/src/tools/time.rs:94-129 | numbering a date and finding the date of a day number are inverse (the calendar both directions rely on) |
| Calendar.DayNumberIncreases | hashiverse-rust/hashiverse-lib/src/tools/time.rs:94-129 | later dates have greater day numbers, and conversely |
| Calendar.MonthsClosedForm | hashiverse-rust/hashiverse-lib/src/tools/time.rs:94-129 | the days before each month, against an independent closed form |
| TimeMillis.ParseInvertsDisplay | hashiverse-rust/hashiverse-lib/src/tools/time.rs:94-129 | over every `i64`, parsing the printed form returns the instant if and only if it is in the calendar, its year prints in four characters or more and its millisecond part is above -100; otherwise an error |
| TimeMillis.ParsePanicsExactly | hashiverse-rust/hashiverse-lib/src/tools/time.rs:94-113 | over every text, parsing panics if and only if the lengths are right and a byte offset that is reached lies inside a character |
| TimeMillis.AsciiNeverCuts | hashiverse-rust/hashiverse-lib/src/tools/time.rs:94-113 | no ASCII text makes the parser panic |
| TimeMillis.EuroSignsPanic | hashiverse-rust/hashiverse-lib/src/tools/time.rs:94-103 | a text of the right byte lengths that does |
| TimeMillis.WideMillisFail | hashiverse-rust/hashiverse-lib/src/tools/time.rs:94-129 | 200 ms before the epoch are printed but not read back |
| TimeMillis.ShortYearFails | hashiverse-rust/hashiverse-lib/src/tools/time.rs:94-129 | the first instant of year 999 is printed as `9990101` and not read back |
| TimeMillis.SinceEpochRoundTrips | hashiverse-rust/hashiverse-lib/src/tools/time.rs:94-129 | every instant since the epoch in the calendar's range is read back, years of five and six digits included |
| TimeMillis.StringOrderIsTimeOrder | hashiverse-rust/hashiverse-lib/src/tools/time.rs:115-129 | up to the end of year 9999 strings are ordered as instants |
| TimeMillis.DisplayOfStamp | hashiverse-rust/hashiverse-lib/src/tools/time.rs:115-129 | the printed form is year, month and day, a dot, hour, minute and second, a dot and milliseconds |
| TimeMillis.AfternoonText | hashiverse-rust/hashiverse-lib/src/tools/time.rs:115-129 | an instant of 2024 and its text |
| TimeMillis.CalendarRange | hashiverse-rust/hashiverse-lib/src/tools/time.rs:115-129 | the first and last second that are printed as dates |
| Bytes.I64CodecIsBijective | hashiverse-rust/hashiverse-lib/src/tools/time.rs:81-87 | the big-endian codec of instants and durations is a bijection with eight-byte strings |
| Bytes.I64IsTwosComplement | hashiverse-rust/hashiverse-lib/src/tools/time.rs:81-87 | the eight bytes, read as one big-endian number, are the number's residue modulo 2^64 |
| DurationMillis.Display | hashiverse-rust/hashiverse-lib/src/tools/time.rs:339-371 | prints the mixed-radix form of the magnitude after the sign |
| DurationMillis.PrintUnits | hashiverse-rust/hashiverse-lib/src/tools/time.rs:344-361 | taking units off `remaining` one after the other appends the mixed-radix digits |
| DurationMillis.Parse | hashiverse-rust/hashiverse-lib/src/tools/time.rs:233-327 | the parser with its index loop computes the recursive parse of every string, errors included |
| DurationMillis.ParseTotal | hashiverse-rust/hashiverse-lib/src/tools/time.rs:257-326 | the loop over `idx` and `total` sums the chunks with checked arithmetic |
| DurationMillis.ParseChunk | hashiverse-rust/hashiverse-lib/src/tools/time.rs:260-313 | one turn reads one chunk with its unit, or fails |
| DurationMillis.UnitsRead | hashiverse-rust/hashiverse-lib/src/tools/time.rs:233-371 | reading printed units adds up to the printed number and no checked operation overflows on the way |
| DurationMillis.ParseOfDisplay | hashiverse-rust/hashiverse-lib/src/tools/time.rs:233-371 | what parsing the printed form yields, for every `i64` |
| DurationMillis.ParseInvertsDisplay | hashiverse-rust/hashiverse-lib/src/tools/time.rs:233-371 | the round trip holds if and only if the duration is not the least `i64` |
| DurationMillis.PrintsMixedRadix | hashiverse-rust/hashiverse-lib/src/tools/time.rs:339-371 | the printed form holds seven counts with the labels M, W, D, h, m, s and the millisecond label, each count below the ratio to the next coarser unit, zeros left out, and they add up to the magnitude |
| DurationMillis.GrammarIsExact | hashiverse-rust/hashiverse-lib/src/tools/time.rs:257-326 | after the sign exactly the sequences of numbers with units whose sum fits are accepted, in any order and repetition, with that sum as value |
| DurationMillis.SignsApply | hashiverse-rust/hashiverse-lib/src/tools/time.rs:243-327 | a plus changes nothing, a minus negates, and after either a digit must follow |
| DurationMillis.BlanksAreIgnored | hashiverse-rust/hashiverse-lib/src/tools/time.rs:234 | blanks around the text change nothing |
| Ids.UnHexOfHex | hashiverse-rust/hashiverse-lib/src/tools/tools.rs:289-299 | decoding printed hex gives the bytes back |
| Ids.HexLayout | hashiverse-rust/hashiverse-lib/src/tools/types.rs:87-89 | each byte prints as two digits, the upper half first |
| Ids.HexDigits | hashiverse-rust/hashiverse-lib/src/tools/types.rs:83-89 | printed digits are lower case, read ones of either case |
| Ids.UnHexReads | hashiverse-rust/hashiverse-lib/src/tools/tools.rs:289-299 | exactly the texts of an even number of hexadecimal digits decode |
| Buckets.RoundDownIsIdempotent | hashiverse-rust/hashiverse-lib/src/tools/buckets.rs:67-69 | a rounded time rounds to itself, whatever the signs; hence every location made by `new` validates |
| Buckets.LocationIdLayout | hashiverse-rust/hashiverse-lib/src/tools/buckets.rs:71-88 | a location id is the hash of 49 bytes: the type as 0 to 4, the base id, and duration and bucket time as big-endian `i64`; the hash for signing is that of the same bytes |
| Buckets.LocationIdSeparates | hashiverse-rust/hashiverse-lib/src/tools/buckets.rs:71-81 | any two quadruples of type, base id, duration and bucket time that differ have different location ids under some hash function |
| Buckets.ValidateRefusesChanges | hashiverse-rust/hashiverse-lib/src/tools/buckets.rs:89-97 | a copy of a location with other fields passes `validate` under every hash function if and only if type, base id and duration are the same and its time lies in the same bucket, rounded or not |
| Buckets.SwappedTimeIsRefused | hashiverse-rust/hashiverse-lib/src/tools/buckets.rs:89-97 | another bucket's time is refused under some hash function, the location's own under none |
| Buckets.AttrFields | hashiverse-rust/hashiverse-lib/src/tools/buckets.rs:102-125 | reading an attribute recovers its five fields, and a sixth one changes nothing |
| Buckets.AttrLayout | hashiverse-rust/hashiverse-lib/src/tools/buckets.rs:102-104 | the five fields of an attribute: version 1, the type by name, the base id in hexadecimal, the printed duration and the printed time |
| Buckets.AttrRoundTrip | hashiverse-rust/hashiverse-lib/src/tools/buckets.rs:71-125 | for every location `new` makes: it validates, and is read back if and only if its duration is not the least `i64` and its start prints reversibly (what its id depends on is `LocationIdSeparates`) |
| Buckets.PositiveAttrRoundTrip | hashiverse-rust/hashiverse-lib/src/tools/buckets.rs:71-125 | with a positive duration and an in-range time since the epoch the location validates and is read back, with or without `~` and any suffix |
| Buckets.AttrPanicsExactly | hashiverse-rust/hashiverse-lib/src/tools/buckets.rs:107-125 | on every text reading panics if and only if all fields before the time are read and either the time is cut inside a character or it parses and the duration is zero |
| Buckets.AsciiPanicsOnlyAtZero | hashiverse-rust/hashiverse-lib/src/tools/buckets.rs:107-125 | on ASCII text reading panics exactly when all fields parse and the duration is zero |
| Buckets.CutCharacterExample | hashiverse-rust/hashiverse-lib/src/tools/buckets.rs:107-125 | a text that panics with a duration of one day: its time starts with four euro signs |
| Buckets.ZeroDurationExample | hashiverse-rust/hashiverse-lib/src/tools/buckets.rs:107-125 | a text that panics through its duration, for every base id: `1~User~` and 64 hex digits, `~0~19700101.000000.000` |
| Buckets.LadderLevels | hashiverse-rust/hashiverse-lib/src/tools/buckets.rs:131-145 | the levels are those multiples of the unit constants; sequel buckets start at a year, all others at a month |
| Buckets.LadderIsNested | hashiverse-rust/hashiverse-lib/src/tools/buckets.rs:131-145 | for every bucket type each level is a multiple of the next and the last is a minute |
| Buckets.RoundingComposes | hashiverse-rust/hashiverse-lib/src/tools/buckets.rs:67-69 | for times of either sign, rounding to a finer level and then to a coarser one is rounding to the coarser one |
| Buckets.ChildrenTile | hashiverse-rust/hashiverse-lib/src/tools/buckets.rs:67-69 | a time of either sign is in a bucket exactly when the finer bucket holding it lies wholly inside; before the epoch buckets reach backwards |
| BucketVisitor.Visit.Pump | hashiverse-rust/hashiverse-lib/src/client/timeline/recursive_bucket_visitor.rs:60-147 | the loop over an explicit stack terminates, is the repetition of single turns until the stack is empty or a callback stops it, and walks as the recursion over levels and siblings does |
| BucketVisitor.Visit.OpenTurn | hashiverse-rust/hashiverse-lib/src/client/timeline/recursive_bucket_visitor.rs:88-142 | one turn on an open frame keeps the meaning of the stack and uses up one of its bounded number of turns |
| BucketVisitor.VisitBuckets | hashiverse-rust/hashiverse-lib/src/client/timeline/recursive_bucket_visitor.rs:37-147 | for every ladder of positive durations, coarsest first, and all ends of the range: fails exactly for an empty ladder and otherwise performs the full walk, saturating sums included |
| BucketVisitor.TerminatesExactly | hashiverse-rust/hashiverse-lib/src/client/timeline/recursive_bucket_visitor.rs:62-100 | the only range start outside the walk's domain is the least `i64` under a root duration dividing 2^63; there, after any number of turns of callbacks that never stop, there are still frames on the stack |
| BucketVisitor.GridIsExact | hashiverse-rust/hashiverse-lib/src/client/timeline/recursive_bucket_visitor.rs:37-147 | the grid used as the reference holds every multiple in its range, once, latest first |
| BucketVisitor.TilesExactly | hashiverse-rust/hashiverse-lib/src/client/timeline/recursive_bucket_visitor.rs:37-147 | on any nested ladder with a tame end, a descent that never declines opens every finest bucket of the range exactly once, latest first; with the minimum after the maximum, those of the root bucket it starts with |
| BucketSaturation.FullDescentTiles | hashiverse-rust/hashiverse-lib/src/client/timeline/recursive_bucket_visitor.rs:37-147 | for the ladder of every bucket type and all pairs of `i64` ends: every minute of the range is opened exactly once, latest first, if and only if the end is tame |
| BucketSaturation.EndOfTimeIsUntame | hashiverse-rust/hashiverse-lib/src/client/timeline/recursive_bucket_visitor.rs:127-140 | the greatest `i64` as end is not, on any ladder |
| BucketVisitor.EachBucketOpensOnce | hashiverse-rust/hashiverse-lib/src/client/timeline/recursive_bucket_visitor.rs:37-147 | for all callbacks, every opened bucket lies in the range and on its grid, and on each level they are opened latest first, none twice |
| BucketCallbacks.CallbacksAreObeyed | hashiverse-rust/hashiverse-lib/src/client/timeline/recursive_bucket_visitor.rs:79-147 | for all callbacks: the walk ends at the first answer to stop; a bucket whose children are declined is closed at once; only children of buckets descended into are opened; a walk that is not stopped opens every root bucket of the range and all children of those descended into, and closes each |
| BucketSaturation.OnGridExactly | hashiverse-rust/hashiverse-lib/src/client/timeline/recursive_bucket_visitor.rs:127-140 | for all pairs of `i64` ends a full descent stays on the grids if and only if its end is tame |
| MemTransport.ServerManager.CreateServer | hashiverse-rust/hashiverse-lib/src/transport/mem_transport.rs:192-233 | updates the shared map as the step does exactly when the step is enabled, and otherwise says which refusal it was: not local, port taken, or the 16-bit sum overflows |
| MemTransport.ServerManager.RemoveServer | hashiverse-rust/hashiverse-lib/src/transport/mem_transport.rs:53-57 | removes one port and no other |
| MemTransport.StepKeepsLifecycle | hashiverse-rust/hashiverse-lib/src/transport/mem_transport.rs:88-161 | every step of every task keeps the invariant tying registry, servers, receivers and listen calls together |
| MemTransport.StepKeepsTraffic | hashiverse-rust/hashiverse-lib/src/transport/mem_transport.rs:88-161 | every step keeps the invariant that follows each request through queues, tasks, handler and channels to its answer |
| TransportRuns.RunKeepsInv | hashiverse-rust/hashiverse-lib/src/transport/mem_transport.rs:88-260 | both invariants hold after every interleaving |
| TransportRuns.SuccessIsOwnAnswer | hashiverse-rust/hashiverse-lib/src/transport/mem_transport.rs:235-260 | an rpc that returns Ok returns what the handler answered to that rpc's own request bytes; which server answered is `RpcReachesItsPort` |
| TransportRuns.RpcReachesItsPort | hashiverse-rust/hashiverse-lib/src/transport/mem_transport.rs:235-260 | in every run an rpc is answered only by the server that held its port when it was called, which is bound to that port; if nobody held the port it fails and reaches no handler |
| TransportRuns.SuccessComesFromListener | hashiverse-rust/hashiverse-lib/src/transport/mem_transport.rs:88-260 | what an rpc returned is the answer some handler step gave after the call, and that handler was attached by a listen call on the server that held the port |
| TransportRuns.FailureHasCause | hashiverse-rust/hashiverse-lib/src/transport/mem_transport.rs:235-260 | an rpc fails only because nobody held the port, the server no longer received, or its channel closed without an answer |
| TransportRuns.AnsweredAtMostOnce | hashiverse-rust/hashiverse-lib/src/transport/transport.rs:87-115 | two answers to one rpc's request are the same answer, and it was given to that rpc's bytes |
| TransportRuns.RegistryIsSound | hashiverse-rust/hashiverse-lib/src/transport/mem_transport.rs:192-233 | every registered port is not 0 and leads to the server bound to it, which has not shut down |
| TransportRuns.PortZeroIsFresh | hashiverse-rust/hashiverse-lib/src/transport/mem_transport.rs:204-210 | a port-0 request gets a port nobody holds, and can be served exactly while 65535 is not registered |
| TransportRuns.CreationBinds | hashiverse-rust/hashiverse-lib/src/transport/mem_transport.rs:192-233 | creating succeeds exactly for a free port (for port 0 while 65535 is free), binds the port asked for or the one after the highest, and registers nothing else |
| TransportRuns.LifecycleOnlyAdvances | hashiverse-rust/hashiverse-lib/src/transport/mem_transport.rs:106-158 | a server keeps its port and only goes Created, Listening, Shutdown, one state at a time |
| TransportRuns.ShutdownIsClean | hashiverse-rust/hashiverse-lib/src/transport/mem_transport.rs:148-158 | after shutdown all accepted requests have finished and no port leads to the server; nothing is queued once the receiver is dropped, which only the last step of listen is left to do |
| TransportRuns.ReceiverIsNeverMissing | hashiverse-rust/hashiverse-lib/src/transport/mem_transport.rs:127-133 | the missing-receiver error is unreachable and at most one listen call holds a server, however calls overlap |
| TransportRuns.NoRpcHangs | hashiverse-rust/hashiverse-lib/src/transport/mem_transport.rs:235-260 | an rpc waiting on a server whose receiver is dropped can return |
| TransportRuns.AcceptedIsNeverLost | hashiverse-rust/hashiverse-lib/src/transport/mem_transport.rs:89-104 | a forwarded request without an answer is queued at a handler that is still receiving, or is being answered |
| TransportRuns.RequestsKeepTheirOrder | hashiverse-rust/hashiverse-lib/src/transport/mem_transport.rs:134-146 | while a server receives, the requests accepted and then those queued are exactly those sent to it, in order; afterwards the accepted ones are the first of them; never more than 256 are queued |
| TransportRuns.SendWaitsWhileFull | hashiverse-rust/hashiverse-lib/src/transport/mem_transport.rs:212-256 | sending waits exactly while 256 requests are queued at a server that still receives |
| TransportRuns.HandlersKeepTheOrder | hashiverse-rust/hashiverse-lib/src/transport/mem_transport.rs:89-104 | what a handler has answered, is answering and has queued is exactly what was forwarded to it, in order |
| TransportRuns.OnlyCancelledListenEnds | hashiverse-rust/hashiverse-lib/src/transport/mem_transport.rs:134-146 | a listen leaves its loop only after its token was cancelled |
| TransportRuns.CancelledListenCanEnd | hashiverse-rust/hashiverse-lib/src/transport/mem_transport.rs:134-161 | from every reachable state a cancelled listen can be driven to its end: the tasks it waits for can all finish |
| TransportRuns.ListenCanBeEnded | hashiverse-rust/hashiverse-lib/src/transport/mem_transport.rs:134-161 | so cancelling any listen that holds its server lets it come to its end |
| TransportRuns.RpcCanSettle | hashiverse-rust/hashiverse-lib/src/transport/mem_transport.rs:235-260 | so every rpc waiting on a server that is listened on can still return |
| TransportRuns.RpcCanSucceed | hashiverse-rust/hashiverse-lib/src/transport/mem_transport.rs:88-260 | from any reachable state calling rpc on a port whose server listens idly can return any answer of its handler |
| TransportRuns.CanListen | hashiverse-rust/hashiverse-lib/src/transport/mem_transport.rs:106-146 | a server nobody has listened on can be made to listen for any handler |
| TimelineControl.PageIsSorted | hashiverse-client-web/src/tabs/timeline/TimelineControl.tsx:110 | a page is shown newest first and is a rearrangement of what was received |
| TimelineControl.PageKeepsTies | hashiverse-client-web/src/tabs/timeline/TimelineControl.tsx:110 | posts of the same instant keep the order in which they were received |
| TimelineControl.Timeline.OnEffect | hashiverse-client-web/src/tabs/timeline/TimelineControl.tsx:89-119 | the effect starts a generation, clears the list and flags and starts a reset, and changes nothing else |
| TimelineControl.Timeline.AfterReset | hashiverse-client-web/src/tabs/timeline/TimelineControl.tsx:99-105 | after the reset only the current generation starts its first request |
| TimelineControl.Timeline.FetchMorePosts | hashiverse-client-web/src/tabs/timeline/TimelineControl.tsx:122-129 | a load-more is issued exactly when nothing is loading |
| TimelineControl.Timeline.OnEndReached | hashiverse-client-web/src/tabs/timeline/TimelineControl.tsx:148-151 | reaching the end loads more only while more may be available |
| TimelineControl.Timeline.AfterResponse | hashiverse-client-web/src/tabs/timeline/TimelineControl.tsx:105-144 | a response is shown, first page or appended, only if its generation is current, and settles loading only then; what that means for paging and for the screen is `PagingGoesOn` and `ResponseShows` |
| TimelineControl.Timeline.AfterFailure | hashiverse-client-web/src/tabs/timeline/TimelineControl.tsx:112-144 | a failed request shows nothing and settles loading only for its own generation |
| TimelineControl.StepKeepsInv | hashiverse-client-web/src/tabs/timeline/TimelineControl.tsx:77-151 | every event keeps the paging invariant |
| TimelineControl.RunKeepsInv | hashiverse-client-web/src/tabs/timeline/TimelineControl.tsx:77-151 | the invariant holds after every run, overlapping, late and failed requests included |
| TimelineControl.PagingIsSafe | hashiverse-client-web/src/tabs/timeline/TimelineControl.tsx:77-151 | visible pages come from requests of the current generation, each at most once; loading implies such a request is in flight |
| TimelineControl.FlagsAreHistory | hashiverse-client-web/src/tabs/timeline/TimelineControl.tsx:77-151 | in every run: loading means that a request went out and no new generation and no settled current request came since; more is available unless the last page on the screen is empty |
| TimelineControl.RequestsGoOutExactly | hashiverse-client-web/src/tabs/timeline/TimelineControl.tsx:99-151 | exactly which events send a request, and never more than one |
| TimelineControl.PagingGoesOn | hashiverse-client-web/src/tabs/timeline/TimelineControl.tsx:135-151 | after a response of the current generation, reaching the end sends a request if and only if the response held a post |
| TimelineControl.EffectAllowsFetching | hashiverse-client-web/src/tabs/timeline/TimelineControl.tsx:89-105 | right after an effect reaching the end sends a request, and so does the end of its own reset but of no earlier one |
| TimelineControl.ResponseShows | hashiverse-client-web/src/tabs/timeline/TimelineControl.tsx:105-138 | the answer to a request sent after a reset replaces the list, any other one extends it, and one of an earlier generation changes nothing |
| TimelineControl.RequestOrigin | hashiverse-client-web/src/tabs/timeline/TimelineControl.tsx:82-129 | a request carries the timeline rendered, the effect's timeline and the generation of the very step of the run that issued it |
| TimelineControl.VisibleTimeline | hashiverse-client-web/src/tabs/timeline/TimelineControl.tsx:77-151 | in every run a visible page is of another timeline than the effect's if and only if the step that issued its request was taken between a render and its effect |
| TimelineControl.ListMixesExactlyFromGaps | hashiverse-client-web/src/tabs/timeline/TimelineControl.tsx:77-151 | the list holds a post of another timeline if and only if it holds a non-empty page whose request was issued in such a gap |
| TimelineControl.InSyncNeverMixes | hashiverse-client-web/src/tabs/timeline/TimelineControl.tsx:77-151 | if no step issues a request in a gap, every post on the screen is of the effect's timeline |
| TimelineControl.GapSurfaces | hashiverse-client-web/src/tabs/timeline/TimelineControl.tsx:122-138 | every request issued in a gap shows posts of another timeline when it is answered at once |
| TimelineControl.GapMixesTimelines | hashiverse-client-web/src/tabs/timeline/TimelineControl.tsx:82-145 | a run after which all posts of two arbitrary pages are on the screen together, fetched for two different timelines |
| TimelineControl.GenerationGrows | hashiverse-client-web/src/tabs/timeline/TimelineControl.tsx:89-119 | generations never go back, a new one starts empty, and a settled request changes nothing any more |
| BytesGatherer.BytesGatherer.PutBigEndian | hashiverse-rust/hashiverse-lib/src/tools/bytes_gatherer.rs:66-83 | appends the number's big-endian bytes to the scratchpad |
| BytesGatherer.BytesGatherer.PutSlice | hashiverse-rust/hashiverse-lib/src/tools/bytes_gatherer.rs:84-86 | appends the slice to the scratchpad |
| BytesGatherer.BytesGatherer.PutBytes | hashiverse-rust/hashiverse-lib/src/tools/bytes_gatherer.rs:89-96 | appends a segment after flushing, and nothing for an empty one |
| BytesGatherer.BytesGatherer.PutBytesGatherer | hashiverse-rust/hashiverse-lib/src/tools/bytes_gatherer.rs:102-114 | appends all of another buffer |
| BytesGatherer.BytesGatherer.IsEmpty | hashiverse-rust/hashiverse-lib/src/tools/bytes_gatherer.rs:117-119 | true exactly when the byte string is empty |
| BytesGatherer.BytesGatherer.Len | hashiverse-rust/hashiverse-lib/src/tools/bytes_gatherer.rs:122-124 | the length of the byte string |
| BytesGatherer.BytesGatherer.Compact | hashiverse-rust/hashiverse-lib/src/tools/bytes_gatherer.rs:129-149 | the accumulator loop computes the fold over the flushed segments and keeps the byte string |
| BytesGatherer.BytesGatherer.Finish | hashiverse-rust/hashiverse-lib/src/tools/bytes_gatherer.rs:151-156 | hands over the segments, none of them empty, which concatenate to the byte string |
| BytesGatherer.BytesGatherer.ToBytes | hashiverse-rust/hashiverse-lib/src/tools/bytes_gatherer.rs:158-169 | returns the byte string, whether it hands over a lone segment or copies |
| BytesGatherer.CompactKeepsBytes | hashiverse-rust/hashiverse-lib/src/tools/bytes_gatherer.rs:129-149 | compacting keeps the bytes, stores no empty segment and leaves no two neighbours under the threshold |
| BytesGatherer.CompactBoundsFragments | hashiverse-rust/hashiverse-lib/src/tools/bytes_gatherer.rs:129-149 | at most twice as many segments as large ones, plus one |
| BytesGatherer.LargeSegmentsSurvive | hashiverse-rust/hashiverse-lib/src/tools/bytes_gatherer.rs:129-149 | every segment at or over the threshold comes through intact and in order |
| BytesGatherer.CompactIsIdempotent | hashiverse-rust/hashiverse-lib/src/tools/bytes_gatherer.rs:129-149 | compacting twice is compacting once |
| BytesGatherer.RunsRefineAppending | hashiverse-rust/hashiverse-lib/src/tools/bytes_gatherer.rs:58-176 | any run of operations refines appending to one byte string and never stores an empty segment |
| FeedbackStore.KeyCodecIsBijective | hashiverse-rust/hashiverse-server-lib/src/environment/disk_environment_store.rs:287-316 | 65-byte keys are in one-to-one correspondence with location, post and type |
| FeedbackStore.ValueCodecIsBijective | hashiverse-rust/hashiverse-server-lib/src/environment/disk_environment_store.rs:324-347 | values are in one-to-one correspondence with salt and pow |
| FeedbackStore.StoredLayout | hashiverse-rust/hashiverse-server-lib/src/environment/disk_environment_store.rs:287-347 | where location, post and type stand in a key, and salt and pow in a value |
| FeedbackStore.EntryLayout | hashiverse-rust/hashiverse-lib/src/protocol/posting/encoded_post_feedback.rs:106-117 | the 43 bytes of an entry, version 1 first |
| FeedbackStore.PrefixIsLocation | hashiverse-rust/hashiverse-server-lib/src/environment/disk_environment_store.rs:169-193 | a key has a location as prefix exactly when it is one of that location's keys |
| FeedbackStore.Store.PutIfMorePowerful | hashiverse-rust/hashiverse-server-lib/src/environment/disk_environment_store.rs:195-215 | the keyspace changes as the strongest-wins put on its key says |
| FeedbackStore.Store.PrefixKeys | hashiverse-rust/hashiverse-server-lib/src/environment/disk_environment_store.rs:169-193 | a prefix scan yields exactly the keys with the prefix, in key order |
| FeedbackStore.Store.FeedbackBytes | hashiverse-rust/hashiverse-server-lib/src/environment/disk_environment_store.rs:169-193 | the loop concatenates the encoded entries of the scan |
| FeedbackStore.Store.DeletePostBundles | hashiverse-rust/hashiverse-server-lib/src/environment/disk_environment_store.rs:217-250 | one batch removes the named locations from all keyspaces and files and nothing else |
| FeedbackStore.Store.KeysOf | hashiverse-rust/hashiverse-server-lib/src/environment/disk_environment_store.rs:217-250 | the scans collect exactly the keys of the named locations |
| FeedbackStore.Store.FlushLastAccessed | hashiverse-rust/hashiverse-server-lib/src/environment/disk_environment_store.rs:252-260 | a batch of times replaces the entries of the named locations and keeps the others |
| FeedbackStore.Store.LastAccessedEntries | hashiverse-rust/hashiverse-server-lib/src/environment/disk_environment_store.rs:262-275 | yields every location with its time exactly once: from the text of the given id on, and then from the start up to it |
| FeedbackStore.Store.LastAccessedKeys | hashiverse-rust/hashiverse-server-lib/src/environment/disk_environment_store.rs:262-275 | for any pivot, the two ranges are ascending and meet at it |
| FeedbackStore.ShortTextLayout | hashiverse-rust/hashiverse-lib/src/tools/types.rs:127-131 | the pivot's text: the first four bytes in hexadecimal and three dots |
| FeedbackStore.StoreHoldsStrongest | hashiverse-rust/hashiverse-server-lib/src/environment/disk_environment_store.rs:195-250 | after any run of puts and deletes a slot holds the strongest proof put since its location's last delete (the earliest of equals), and nothing if none was put |
| FeedbackStore.PowIgnoresOrder | hashiverse-rust/hashiverse-server-lib/src/environment/disk_environment_store.rs:195-215 | the stored pow depends on neither order nor repetition of the puts |
| FeedbackStore.ScanListsLocation | hashiverse-rust/hashiverse-server-lib/src/environment/disk_environment_store.rs:169-193 | the listing of a location holds all its stored entries and no others |
| FeedbackStore.ScanIsUnique | hashiverse-rust/hashiverse-server-lib/src/environment/disk_environment_store.rs:169-193 | a scan has only one possible result |
| FeedbackStore.DeleteIsExact | hashiverse-rust/hashiverse-server-lib/src/environment/disk_environment_store.rs:217-250 | deleting removes exactly the named locations' entries |
| FeedbackStore.EntriesRoundTrip | hashiverse-rust/hashiverse-lib/src/protocol/posting/encoded_post_feedback.rs:106-146 | concatenated entries decode one after the other, whatever follows |
| FeedbackStore.EntriesAreExact | hashiverse-rust/hashiverse-lib/src/protocol/posting/encoded_post_feedback.rs:106-146 | exactly the encodings of sequences of entries decode, each to what it encodes |
| FeedbackStore.ListingRoundTrips | hashiverse-rust/hashiverse-server-lib/src/environment/disk_environment_store.rs:169-193 | the bytes sent for a location decode to its entries |
| KeyOrder.SortKeys | hashiverse-rust/hashiverse-server-lib/src/environment/disk_environment_store.rs:169-193 | a keyspace is iterated in ascending key order |
| KeyOrder.AscendingIsUnique | hashiverse-rust/hashiverse-server-lib/src/environment/disk_environment_store.rs:262-275 | that order is determined by the set of keys |
| Encryption.Encrypt | hashiverse-rust/hashiverse-lib/src/tools/encryption.rs:144-181 | returns the ciphertext of the derived keys, or an error for no or too many recipients, unsupported parameters or a failed derivation |
| Encryption.Decrypt | hashiverse-rust/hashiverse-lib/src/tools/encryption.rs:196-240 | on arbitrary bytes every slice taken is in range, and the loop over slots finds the first that opens |
| Encryption.HeaderRoundTrip | hashiverse-rust/hashiverse-lib/src/tools/encryption.rs:99-133 | a written header is read back if its parameters are within the limits and refused otherwise |
| Encryption.HeaderIsCanonical | hashiverse-rust/hashiverse-lib/src/tools/encryption.rs:99-133 | an accepted header is byte for byte the one the writer makes |
| Encryption.HeaderLimits | hashiverse-rust/hashiverse-lib/src/tools/encryption.rs:108-133 | exactly which headers are accepted: at most 262144 KiB, 16 passes and 4 lanes, and where each parameter stands |
| Encryption.Presets | hashiverse-rust/hashiverse-lib/src/tools/encryption.rs:72-97 | the header bytes of the two presets, and what Argon2 is asked to support, in its order |
| Encryption.CiphertextLayout | hashiverse-rust/hashiverse-lib/src/tools/encryption.rs:144-181 | the length is 15+1+60n+12+plaintext+16 and each slot, nonce and body sits where the reader looks |
| Encryption.SearchSlots | hashiverse-rust/hashiverse-lib/src/tools/encryption.rs:214-232 | the search finds the file key exactly when the key is a recipient's |
| Encryption.EncryptThenDecrypt | hashiverse-rust/hashiverse-lib/src/tools/encryption.rs:144-240 | a password is accepted exactly when it derives a recipient's key, and then yields the plaintext |
| Encryption.ListedPasswordsDecrypt | hashiverse-rust/hashiverse-lib/src/tools/encryption.rs:144-240 | for 1 to 32 passwords each listed one opens the ciphertext of either strength, and one deriving no listed key fails |
| Encryption.OnlyTheseDecrypt | hashiverse-rust/hashiverse-lib/src/tools/encryption.rs:196-240 | what every accepted ciphertext looks like: versions, limits, 1 to 32 recipients and enough bytes for them |
| Encryption.TamperingIsCaughtExactly | hashiverse-rust/hashiverse-lib/src/tools/encryption.rs:196-240 | for all bytes after a genuine header: the plaintext comes out if and only if some slot is one for this password and everything after the slots is unchanged, and otherwise nothing does |
| Encryption.OtherSlotsMayChange | hashiverse-rust/hashiverse-lib/src/tools/encryption.rs:196-240 | overwriting the slot of another recipient goes unnoticed: the plaintext still comes out |
| Pow.PowMeasureFromDataHash | hashiverse-rust/hashiverse-lib/src/tools/pow.rs:66-83 | the nested loops over the chained hash list compute the measured pow and final hash |
| Pow.ChainHasFiveRounds | hashiverse-rust/hashiverse-lib/src/tools/pow.rs:66-83 | the final hash ends a chain of five rounds, each applying one of 17 hashes once or twice as its first two bytes choose |
| Pow.PowIsMagnitude | hashiverse-rust/hashiverse-lib/src/tools/pow.rs:66-83 | the final hash, read as one number, is below 2^(256 - pow), and not below the next power of two unless the pow is capped |
| Pow.RunChunk | hashiverse-rust/hashiverse-lib/src/tools/pow_generator/pow_generator.rs:305-328 | the salt returned is one of those tried and genuinely measures as claimed; it is the first that suffices, or the best of all when none does |
| Pow.Generate | hashiverse-rust/hashiverse-lib/src/tools/pow_generator/pow_generator.rs:215-291 | whatever order chunks complete in, the salt returned measures as claimed; it is the first that suffices, or the best of all tried when none does |
| Pow.WorkMeansZeroBytes | hashiverse-rust/hashiverse-lib/src/tools/pow.rs:66-83 | a pow of p means p / 8 leading zero bytes |
| Identity.NewVerifies | hashiverse-rust/hashiverse-lib/src/tools/server_id.rs:87-165 | a new identity verifies if and only if the generator met the required pow |
| Identity.PowDataLayout | hashiverse-rust/hashiverse-lib/src/tools/server_id.rs:83-85 | the 136 bytes the work is done on determine sponsor, key, commitment, timestamp and content hash |
| Identity.PeerOfServer | hashiverse-rust/hashiverse-lib/src/tools/server_id.rs:105-146 | a new peer claims its server's id and keys, its proof of work three times, no address and the current time |
| Identity.SignedPeerVerifies | hashiverse-rust/hashiverse-lib/src/protocol/peer.rs:267-273 | signing sets timestamp and signature only, and the signature verifies under the derived key |
| Identity.PeerVerifiesWithServer | hashiverse-rust/hashiverse-lib/src/protocol/peer.rs:275-312 | a peer made and signed from an identity passes all three checks if and only if the identity verifies; what the checks refuse is `AlterationsAreRefusedExactly` |
| Identity.FreshServerIsAccepted | hashiverse-rust/hashiverse-lib/src/tools/server_id.rs:87-165 | from a genuine salt to a verified identity, a verified peer and an identity read back from its bytes |
| Identity.Encode | hashiverse-rust/hashiverse-lib/src/tools/server_id.rs:167-188 | extending the vector field by field never fails its length check and gives the fixed layout |
| Identity.EncodedLayout | hashiverse-rust/hashiverse-lib/src/tools/server_id.rs:167-188 | where each field stands in the 209 bytes |
| Identity.Decode | hashiverse-rust/hashiverse-lib/src/tools/server_id.rs:190-243 | advancing the position reads the fixed layout, and fails exactly on a wrong length or an invalid key |
| Identity.EncodeThenDecode | hashiverse-rust/hashiverse-lib/src/tools/server_id.rs:167-243 | an identity is read back if and only if its keys are consistent and its key decodes |
| Identity.DecodeThenEncode | hashiverse-rust/hashiverse-lib/src/tools/server_id.rs:167-243 | which byte strings are accepted, and that encoding the decoded identity gives each of them back |
| Identity.VerifiedIdEndsInZeros | hashiverse-rust/hashiverse-lib/src/tools/server_id.rs:54-63 | the id of a verified identity ends in at least pow / 8 zero bytes |
| Identity.VerifiedPeerIdEndsInZeros | hashiverse-rust/hashiverse-lib/src/protocol/peer.rs:289-305 | so does the id of a verified peer, whose initial pow meets the required one |
| Identity.SignedBytesDetermineFields | hashiverse-rust/hashiverse-lib/src/protocol/peer.rs:254-265 | the signed bytes determine every signed field, the address of variable length included |
| Identity.ForgeriesAreRefused | hashiverse-rust/hashiverse-lib/src/protocol/peer.rs:275-287 | if a key has signed one peer and nothing else, every record under that key that verifies has that signature, id, commitment, address and timestamp, and tokens with the same final hashes |
| Identity.AlterationsAreRefusedExactly | hashiverse-rust/hashiverse-lib/src/protocol/peer.rs:275-312 | beside a verified peer, exactly those records of its key verify that differ from it in version, or in tokens of the same claimed pow and final hash |
| Identity.FalseClaimIsRefused | hashiverse-rust/hashiverse-lib/src/protocol/peer.rs:307-312 | a token whose claimed pow is not what it measures is refused in each of the three places |
| Identity.AssumptionsCanBeMet | hashiverse-rust/hashiverse-lib/src/protocol/peer.rs:275-312 | the assumptions of these two results hold together for some verified peer |
| Identity.VersionIsNotSigned | hashiverse-rust/hashiverse-lib/src/protocol/peer.rs:254-312 | a peer verifies whatever version it carries |
| HyperLogLog.HyperLogLog.InsertItem | hashiverse-rust/hashiverse-lib/src/tools/hyper_log_log.rs:40-60 | raises one register as the functional insert does |
| HyperLogLog.HyperLogLog.MergeFrom | hashiverse-rust/hashiverse-lib/src/tools/hyper_log_log.rs:85-91 | the loop leaves the pointwise maximum, also when a sketch is merged with itself |
| HyperLogLog.RhoIsMagnitude | hashiverse-rust/hashiverse-lib/src/tools/hyper_log_log.rs:44-55 | rho places bytes 1 to 8 of the hash between two powers of two, and the register is the low six bits of byte 0 |
| HyperLogLog.SketchHoldsGreatestRho | hashiverse-rust/hashiverse-lib/src/tools/hyper_log_log.rs:40-60 | register i is the greatest rho of the items that select it, zero if none does |
| HyperLogLog.SketchDependsOnSet | hashiverse-rust/hashiverse-lib/src/tools/hyper_log_log.rs:40-60 | registers depend only on the set of items |
| HyperLogLog.SketchIsBounded | hashiverse-rust/hashiverse-lib/src/tools/hyper_log_log.rs:40-60 | no register exceeds 65 |
| HyperLogLog.MergeIsConcatenation | hashiverse-rust/hashiverse-lib/src/tools/hyper_log_log.rs:85-91 | merging two sketches is sketching the concatenated items |
| HyperLogLog.MergeIsSemilattice | hashiverse-rust/hashiverse-lib/src/tools/hyper_log_log.rs:85-91 | merge is commutative, associative and idempotent, with the empty sketch as unit |

## Left out

- In-memory transport: `listen`, the spawned tasks, the handler loop and `rpc` are steps on values, because their
  interleavings are what is proved; only the shared registry is a class. A `listen` or handler future dropped before it
  ends is not modelled.
- In-memory transport: address text, logging and the scoring behind the admission guard (`Admit` and `Refuse` are both
  always possible); the capacity of a handler's queue (forwarding never waits); fairness.
- TransportRuns.PortZeroIsFresh: once 65535 is taken the source's 16-bit sum overflows; `CreateServer` reports that, and
  whether the build then stops or wraps around is not modelled.
- Calendar: written out from RFC 3339, Appendix C and section 5.7; chrono itself is not part of this model beyond its
  range of years, -262143 to 262142.
- XorMetric.LeadingAgreementBitsXor: the counter is unbounded, so keys of 2^28 bytes or more, where 32 bits overflow, are not modelled.
- BucketVisitor.VisitBuckets: callbacks that fail with an error are not modelled; ladders with a zero duration, or that
  are not coarsest first, and the range start of `TerminatesExactly`, are outside its domain.
- PlainTextPost: URL previews, and the hashtag helper on arguments the converter never passes.
- BytesGatherer: sharing of segment memory by reference counts, and the two little-endian puts, which append other bytes in the same way.
- FeedbackStore: durability, locking, file contents and the metadata codec; each put and each delete batch is atomic.
- Encryption.EncryptThenDecrypt: failure under a foreign key is assumed of the slots of the ciphertext at hand only,
  since no cipher refuses every foreign key; length-limit failures of the cipher are not modelled.
- Encryption, Identity, Pow: the insides of Argon2, ChaCha20-Poly1305, Ed25519, Blake3 and the proof-of-work hash list.
- Pow.Generate: concurrency of the pool is the order in which chunks complete, and an iteration limit the number of chunks given; job tracking is left out.
- Identity: the JSON form of a peer, its addresses and the decay of its pow; the required pow is a parameter.
- HyperLogLog: `count`, which is floating point.
- TimelineControl: React's rendering and scheduling, beyond the order of renders, effects and resumed awaits; the time of the oldest
  processed post, which is only displayed.
- Identity.ForgeriesAreRefused: that a key has signed nothing else and that the hash does not collide is assumed of one peer, not of the
  primitives, which could not satisfy it for all.
