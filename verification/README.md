# Evidence that can be rebuilt: a verified model

The observatory collects an MCP server registry, analyses packages, and keeps what it found as evidence: canonical files,
digests, checkpoints, catalogs and summaries that a later reader can rebuild and compare byte for byte. This project models
the parts that promise has to rest on and proves them, for all inputs, all runs and all crash points:

- **Text and records.** UTF-8, JSON, SHA-256, and the records written from registry pages. A JSON value and its canonical
  text determine each other; a line the writer emits passes the validator and hashes to what it declares.
- **Collection.** Pages committed in three atomic replaces, a crash between any two steps, resume into a new directory, the
  finished bundle with its self-validation, success marker and promotion; retries, deadlines and redirects. Whatever
  reaches the output path is valid, and its canonical file is that of a run without a crash.
- **Packages.** The archive reader, inverse to a writer of the same format and safe on every input, and the window of source
  text shown for a finding.
- **Tables.** Summaries kept by triggers, built by backfill and repaired by a refresh, always against a recount; the
  static-analysis schedule; the catalog import with its counters.
- **Maintenance and drift.** Replacing the live catalog with a backup that survives pruning, restoring it, comparing two
  inventories and keeping the last two observations of a target.

Byte strings are sequences of numbers below 256. Objects whose fields the program updates are classes; loops over buffers
and positions are methods proved against functions on values. SHA-256 is an arbitrary function of bytes wherever records are
concerned, and is defined and computed in its own module. Clock readings, transport replies, results of child processes,
choices SQL leaves open and failures of any write are parameters or arbitrary functions of a step number, so every theorem
holds for all of them. A database transaction, and any work under the writer lock, is one step.

Some promises hold only under a condition. Each condition is proved to be exact, and most failures have a run or an input
that shows them:

- A resume is refused, not silently continued, when a crash fell between the replace of `pages.jsonl` and the replace of the
  checkpoint. It is accepted exactly when the bundle has no success marker, checkpoint and `pages.jsonl` describe the same
  number of pages, the checkpoint is of the same mode, and each page declares, if anything, the cursor it was requested
  with; without a checkpoint, in full mode only and with at least one page (`Collection.ResumeExactly`,
  `CollectRun.Resume`). For any registry whose first page is acceptable,
  `CollectRun.RefusedResume` leaves a bundle no process will ever resume (`CollectRun.OnePageAccepted` is such a registry).
- A collection of accepted pages can still fail its self-validation: the canonical file passes exactly when no line is
  longer than the validator's cap of 8 MiB, which the writer does not enforce (`ValidBundle.CollectedFileValidates`); the
  file may have 512 MiB, and the clock must not have gone back (`CollectRun.Collect`). A line holds the description twice,
  so one of 4 MiB is enough (`LongRecords.LongLineRefused`).
- A bundle that has its marker but was not moved to the output path validates exactly when its diagnostics file is empty: a
  failure reported behind the marker writes into that file (`ValidBundle.FinishedValidates`).
- A claimed package may be claimed again while its process is still at work, after its claim was recovered as stale; and as
  nothing checks who reports, its late result then overwrites the later claim's row, exactly when the row is running under
  another claim (`StaticScheduler.Schedule.RecordResult`). Without a recovery that cannot happen
  (`StaticScheduler.Schedule.NoIntrusion`); `StaticScheduler.LateResult` is a run in which it does.
- A recorded refusal, unsupported or unresolvable, lasts until the next synchronization only
  (`SchedulerRows.RefusalForgotten`).
- The source window keeps its anchor for every text exactly when it may hold six octets or more
  (`SourceWindow.AnchorKeptExactly`); `SourceWindow.LostBelowSix` is a text that loses it.
- A refresh leaves the old catalog backed up exactly when fewer backups than retention keeps sort behind the new backup's
  name (`Maintenance.Machine.Refresh`). A clock that went backwards can make the new backup the first one pruned,
  so that none of what was replaced is left (`Maintenance.PrunedBackup`).
- A database from schema version 1 has two summary columns at zero until they are refreshed. Until then a review of an
  unreviewed finding of high or critical severity fails on a CHECK constraint, exactly when the column it would decrement
  is zero (`StorageWriter.CheckHolds`, `StorageWriter.ReviewFailsUntilRefreshed`); on good rows that is where the row is
  not what a recount gives (`StorageWriter.StuckRows`), and the refresh repairs exactly those (`StorageDatabase.RefreshRepairs`).

A refresh reports success exactly when both catalogs are accepted and none of its operations failed. So a fault behind the
swap, in the directory flush or the status file, is reported as a failure although the new catalog is live. In the same way
a collection whose bundle was moved reports a failure when the flush of the parent directory fails.

`Collection.dfy` and `CollectRun.dfy` fix what the registry serves for each cursor; the page bodies themselves are arbitrary.

## Model

| member | source | states |
|---|---|---|
| Utf8.EncodeWellFormed | src/registry.cpp:137-152 | every scalar value is written as one well-formed character that decodes back to it |
| Utf8.DecodeInverts | src/registry.cpp:101-134 | every character the checks accept is the encoding of a scalar value (sections 3 and 4 of RFC 3629) |
| Utf8.ValidExactly | src/registry.cpp:101-134 | character-by-character validation accepts exactly the concatenations of encoded scalar values |
| Utf8.CheckCharacter | src/registry.cpp:106-131 | the continuation loop with its accumulated value accepts exactly one well-formed character and gives its length |
| Utf8.ValidUtf8 | src/registry.cpp:101-134 | the in-place pass returns true exactly on concatenations of encoded scalar values |
| Bytes.LessExactly | src/registry.cpp:380-406 | the order of keys and identities: one byte string is less exactly when it is a proper prefix of the other or has the smaller unsigned byte where the two first differ |
| Json.AppendJsonString | src/registry.cpp:354-378 | the escaping loop appends the quoted string of the canonical form and nothing else |
| Json.CanonicalJson | src/registry.cpp:380-406 | the recursive printer appends the canonical text, members in byte order of their keys |
| JsonParser.Parser.StringToken | src/registry.cpp:202-243 | the string loop over the position agrees with the string grammar's reading, value, rest and error |
| JsonParser.Parser.NumberToken | src/registry.cpp:245-277 | the number scan stops where the number lexeme ends, or fails as the reading does |
| JsonParser.Parser.Value | src/registry.cpp:279-348 | the recursive descent, with its depth limit, agrees with the reading function on value, position and error |
| JsonParser.Parser.Members | src/registry.cpp:299-318 | the member loop keeps keys distinct and agrees with the reading function |
| JsonParser.Parser.Run | src/registry.cpp:158-171 | the whole parse equals the reading function on every input, errors included |
| JsonExact.StringComplete | src/registry.cpp:202-243 | every spelling of a string, whatever its escapes and surrogate pairs, is read as what it means |
| JsonExact.StringSound | src/registry.cpp:202-243 | whatever is read as a string is a grammatical spelling of the value returned |
| JsonExact.NumberComplete | src/registry.cpp:245-277 | every number lexeme in front of a terminator is read whole |
| JsonExact.NumberSound | src/registry.cpp:245-277 | whatever is read as a number is a number lexeme |
| JsonEscapes.HexValueExactly | src/registry.cpp:187-200 | each hexadecimal digit, in either case, is worth its place among the sixteen, and no other byte is one |
| JsonEscapes.EscapeRead | src/registry.cpp:187-243 | every scalar value written as one escape or a surrogate pair, each digit in either case, is read back as its UTF-8 encoding |
| JsonEscapes.ShortEscapesExactly | src/registry.cpp:215-223 | the eight two-character escapes stand for the characters their letters name, and no other letter is one |
| JsonEscapes.StringShortest | src/registry.cpp:354-378 | no spelling of a string is shorter than the one the printer chooses |
| JsonEscapes.ControlsAreLower | src/registry.cpp:354-378 | the six-character escapes the printer writes are those of control characters, with digits in lower case |
| JsonEscapes.PrintedShape | src/registry.cpp:380-406 | canonical text spelled out: words, brackets, items in order, members in ascending order of their names, one comma between neighbours and no spaces |
| JsonDocuments.TreeComplete | src/registry.cpp:279-348 | every grammatical value within the depth limit is read as what it means |
| JsonSound.TreeSound | src/registry.cpp:279-348 | whatever is read as a value is grammatical, within the depth limit, and means the value returned |
| JsonText.MembersInAnyOrder | src/registry.cpp:299-318 | two member lists mean the same object exactly when they hold the same pairs of name and value, in whatever order |
| JsonRoundTrip.ParsesExactly | src/registry.cpp:158-348 | the parser accepts exactly the UTF-8 texts of the RFC 8259 grammar within 64 levels and without repeated keys, as what they mean |
| JsonDepth.NestingExactly | src/registry.cpp:279-283 | counted in the text: arrays may be nested 65 deep and no deeper |
| JsonRoundTrip.TreeText | src/registry.cpp:202-243 | strings of accepted input are valid UTF-8 at every depth, surrogate escapes included |
| JsonRoundTrip.ParsedIsPrintable | src/registry.cpp:158-171 | every value the parser returns has UTF-8 strings, number lexemes and bounded depth |
| JsonRoundTrip.ParsePrint | src/registry.cpp:380-406 | parsing the canonical text of such a value gives exactly that value back |
| JsonRoundTrip.CanonicalText | src/registry.cpp:380-406 | normalising is idempotent, and two texts get the same bytes exactly when they parse to the same value |
| JsonRoundTrip.SameMeaningSameBytes | src/registry.cpp:380-406 | spaces, member order and escape spelling never change the canonical bytes, and nothing else leaves them unchanged |
| Sha256.ExtendSchedule | src/registry.cpp:731-740 | the word loop fills the array with the recurrence of section 6.2.2 of FIPS 180-4 |
| Sha256.LoadWord | src/registry.cpp:723-730 | shifts and ors load the big-endian value of four octets |
| Sha256.RunRounds | src/registry.cpp:741-767 | the register loop performs the 64 rounds of section 6.2.2 |
| Sha256.Transform | src/registry.cpp:721-776 | one call turns the state array into the compression of the old state with the block at the offset |
| Sha256.FillTail | src/registry.cpp:785-796 | the 64- or 128-octet tail completes the message to the padding of section 5.1.1 |
| Sha256.HashInPlace | src/registry.cpp:778-798 | whole blocks in place and then the tail give the fold of the compression over the padded message |
| Sha256.Sha256Bytes | src/registry.cpp:693-812 | the digest text is the hexadecimal spelling of that hash |
| Sha256.LengthFieldExact | src/registry.cpp:791-796 | the length field holds the bit length exactly for messages below 2^61 octets |
| Sha256.PaddingInjective | src/registry.cpp:785-798 | below that length different messages have different padded messages |
| Sha256.TextDeterminesHash | src/registry.cpp:800-811 | equal digest texts come from equal final states only |
| Sha256Bits.RotrBits | src/registry.cpp:718-720 | rotating right by n brings bit i + n, counted around the word, to place i |
| Sha256Bits.ChoiceBits | src/registry.cpp:741-767 | the choice and majority functions bit by bit |
| Sha256Bits.SumBits | src/registry.cpp:741-767 | the two functions of a round on one register: each bit is the sum of three bits of the word, at the distances of section 4.1.2 of FIPS 180-4 |
| Sha256Bits.SigmaBits | src/registry.cpp:731-740 | the same of the two functions of the schedule, one of whose bits is shifted |
| Sha256Bits.ScheduleExactly | src/registry.cpp:731-740 | each later word of the schedule is a sum of four words modulo 2^32 |
| Sha256Bits.RoundExactly | src/registry.cpp:741-767 | a round makes two new words, sums modulo 2^32, and moves the other registers up by one place |
| Sha256Bits.FeedForward | src/registry.cpp:768-775 | each word of the hash grows by the register it was loaded into |
| Sha256Bits.InitialAreRoots | src/registry.cpp:715-717 | the initial words are the first 32 bits of the fractions of the square roots of the first eight primes (section 5.3.3) |
| Sha256Bits.RootsFrom2 | src/registry.cpp:698-714 | the first eight round constants are those of the cube roots of the first eight primes (section 4.2.2); seven more lemmas have the others |
| Record.BuildRecord | src/registry.cpp:1058-1096 | the record and its error cases, from one entry: identity, hashed content, declared digest, observation time |
| Record.ValidateLine | src/registry.cpp:3072-3112 | the validator's checks on one line, in their order, and the identity it orders by |
| RecordExact.TimestampExactly | src/registry.cpp:1902-1914 | a timestamp is accepted exactly when it is the written form of a year, month, day, hour, minute and second, each in range |
| RecordExact.ServerNameExactly | src/registry.cpp:1036-1049 | a server name is accepted exactly when it is a namespace and a name with a slash between them, in their letters, 3 to 200 bytes long |
| RecordExact.IdentityExactly | src/registry.cpp:1066-1075 | an entry has an identity exactly when its server object has a valid name and version, and it is those |
| RecordExact.ObservedExactly | src/registry.cpp:1021-1034 | the observation time is the update time if that is a timestamp, else the publication time if that is one, else the epoch |
| RecordExact.MembersExactly | src/registry.cpp:1077-1091 | a record has exactly its seven fixed members and those of description, repository, packages and remotes the server object has, each with its value |
| RecordExact.LineExactly | src/registry.cpp:3072-3112 | a line is accepted exactly when it is the canonical text of an object with a valid time and the hash of the object without those two members; its identity is name, newline and version |
| WriterValidator.WriterMeetsValidator | src/registry.cpp:1058-1096 | every record line has no inner newline and passes parse, normal form, timestamp and hash checks, or is refused for its length alone; erasing two members gives back the hashed content |
| WriterValidator.RecordEndsLine | src/registry.cpp:1092-1095 | every record ends in the newline that separates lines |
| LongRecords.LineLength | src/registry.cpp:1058-1096 | the line written for an entry is more than twice as long as its description |
| LongRecords.LongLineRefused | src/registry.cpp:3076-3078 | a valid entry with a description of 4 MiB gives a line the validator refuses |
| Page.ParsePage | src/registry.cpp:1098-1152 | the page parser gives the records, cursors and error of the reading function, which PageExactly says without it |
| Page.PageExactly | src/registry.cpp:1098-1152 | a body is accepted as a page exactly when it is an object whose servers are all objects with a record, whose next cursor is a non-empty text of the metadata (absent, null and empty mean none) and whose declared cursor, when asked for, is likewise; the records are those entries' in order |
| Page.PageRecordsWritten | src/registry.cpp:1098-1152 | every record of an accepted page comes from an entry for which writer and validator agree |
| CanonicalFile.OrderIrrelevant | src/registry.cpp:2763-2784 | permuting pages and records changes neither the conflict verdict nor any byte |
| CanonicalFile.Canonicalize | src/registry.cpp:2763-2784 | sort and grouping give one line per identity in ascending order and their number; the conflict exit is taken exactly on conflicting records |
| CanonicalFile.ValidateCanonical | src/registry.cpp:3066-3117 | the validator's loop over the canonical file, strict ascending order included |
| CanonicalFile.LinesExactly | src/registry.cpp:3071 | reading a file line by line gives exactly the lines, free of newlines, it is written from, whether or not the last one is terminated |
| CanonicalFile.PassExactly | src/registry.cpp:3112-3116 | the validator's pass accepts exactly lines that are all accepted and whose identities strictly ascend, and counts them |
| CanonicalFile.ValidExactly | src/registry.cpp:3066-3117 | a canonical file is accepted exactly when each line is, as some identity, in strictly ascending order of identities |
| CanonicalFile.WrittenFileValidates | src/registry.cpp:3066-3117 | the canonical file of records from accepted pages without conflicts is accepted exactly when no line is over the cap, as the number of distinct identities |
| Collection.RegistryParserOk | src/registry.cpp:1098-1152 | asking a page for its declared cursor changes neither records nor next cursor |
| Collection.EndUnique | src/registry.cpp:2333-2344 | a page chain ends at one place only |
| CollectionExact.ChainExactly | src/registry.cpp:2333-2744 | the chain has n pages exactly when some n pages, each what the server sends for the cursor of the one before, keep the limits of pages, bytes and records, repeat no cursor and have no two lines for one identity; it stands where they lead |
| CollectionExact.RebuildExactly | src/registry.cpp:1237-1345 | for any raw directory, n pages are rebuilt exactly when they form such a trail and declare, if anything, the cursor before them; the state is theirs |
| CollectionExact.ResumedExactly | src/registry.cpp:1456-1640 | whatever is on disk, a bundle with a checkpoint is resumed exactly when rebuilt pages within the limit agree with it and with the page lines in counts, cursor, digests, sizes and mode, and have no two lines for one identity |
| Collection.RebuildFollowsChain | src/registry.cpp:1237-1345 | rebuilding from raw pages gives the chain's state, and succeeds exactly when each page declares the cursor it was requested with, if any |
| Collection.ReconstructedIsGood | src/registry.cpp:2004-2042 | a checkpoint and pages.jsonl reconstructed from raw pages are what their own process would have left |
| Collection.HeadExactly | src/registry.cpp:1456-1640 | a bundle with a checkpoint is resumed exactly when checkpoint and pages.jsonl agree on the number of pages, the mode is the same and the pages are continuous |
| Collection.ResumeExactly | src/registry.cpp:2244-2290 | the same with or without a checkpoint: which bundles are resumed, and that the resume starts from exactly the committed pages |
| ValidBundle.ValidateBundle | src/registry.cpp:2958-3211 | the validation of a bundle: artifacts, sizes, digests, canonical lines, page lines and counts against the manifest |
| ValidBundle.ValidatesExactly | src/registry.cpp:2958-3211 | what is accepted, file by file: digest and size of every page, page line, canonical and diagnostics file, the counts, and accepted lines in strictly ascending order |
| ValidBundle.FinishedValidates | src/registry.cpp:2958-3211 | the finished bundle of a whole chain validates exactly when its diagnostics file is empty and its canonical file, times and remaining fields are acceptable |
| ValidBundle.ChainWritten | src/registry.cpp:1098-1152 | with the registry's parser every record of a page chain was built from a printable entry |
| ValidBundle.CollectedFileValidates | src/registry.cpp:3066-3132 | from served bytes to accepted file: the canonical file of a whole chain passes line by line, with the right count, exactly when no line is over the cap |
| CollectRun.AddToIndex | src/registry.cpp:2636-2648 | the duplicate check refuses a page exactly when some identity would have two lines |
| CollectRun.Reconstruct | src/registry.cpp:1237-1345 | the loop over raw pages computes the rebuilt state and the page lines that describe it, or refuses |
| CollectRun.CheckResume | src/registry.cpp:1456-1640 | all checks on a bundle with a checkpoint together give the resume state and an index of its records |
| CollectRun.CommitPage | src/registry.cpp:2653-2743 | raw page, pages.jsonl, checkpoint: after any crash or failure the directory is resumable or refused, never wrong; it succeeds exactly when none of its writes went wrong, and then holds one page more; a crash between the last two leaves it refused |
| CollectRun.MixedIsGood | src/registry.cpp:2653-2743 | every mixture of old and new files that the write order allows keeps the directory invariant |
| CollectRun.BetweenIsRefused | src/registry.cpp:2696-2706 | what a crash between the replace of pages.jsonl and that of the checkpoint leaves is good and is never resumed |
| CollectRun.RefusedResume | src/registry.cpp:2696-2706 | for every registry whose first page is acceptable, a run that ends so: nothing resumes what it leaves |
| CollectRun.OnePageAccepted | include/observatory/registry.hpp:18-20 | under the default limits the registry's parser accepts a page without servers, and the chain ends there |
| CollectRun.CursorContinues | src/registry.cpp:1115-1140 | a registry whose first page names a cursor: the collection has not ended behind it |
| CollectRun.TwoPagesEnd | src/registry.cpp:2333-2344 | and ends behind the second page, which names none |
| CollectRun.MakeCheckpoint | src/registry.cpp:2004-2042 | reconstructing a checkpoint, with a crash or failure at each write, keeps the bundle good |
| CollectRun.Adopt | src/registry.cpp:2244-2331 | resuming copies the committed pages into a new directory that holds exactly them |
| CollectRun.Resume | src/registry.cpp:2244-2331 | a resume succeeds exactly when none of its writes went wrong, the bundle has no success marker and its resume state exists |
| CollectRun.AcceptPage | src/registry.cpp:2614-2648 | the checks on one response accept exactly the chain's next page |
| CollectRun.WriteFiles | src/registry.cpp:2796-2890 | canonical file, diagnostics file and manifest are those of the whole chain, whatever was left of failed writes |
| CollectRun.Finish | src/registry.cpp:2760-2946 | a success marker stands only in the finished, self-validated bundle; only a marked bundle is moved |
| CollectRun.Collect | src/registry.cpp:2045-2953 | one process, whatever happens to its writes, leaves good directories; what it moves to the output path is the valid finished bundle of the whole chain; it reports success exactly when nothing went wrong, the chain ends, its source is resumable and the bundle acceptable |
| CollectRun.FinalUnique | src/registry.cpp:2763-2784 | two runs over one chain that complete have the same canonical bytes and count |
| CollectRun.CollectRepeatedly | src/registry.cpp:2045-2953 | any number of processes, each resuming any directory left so far: whatever reaches the output path is valid and has the canonical file of an undisturbed run |
| Retry.ExponentialDelay | src/registry.cpp:1833-1848 | the delay is min(initial * 2^(n-1), maximum), positive and within 64 bits |
| Retry.RetryAfter | src/registry.cpp:1850-1869 | the Retry-After delay of the reading function, never longer than the maximum |
| Retry.PolicyBounds | src/registry.cpp:1739-1771 | a policy is accepted exactly when its timeouts, attempts and delays are within the bounds in days and counts |
| Retry.RetryAfterExactly | src/registry.cpp:1850-1869 | a Retry-After header counts exactly for the statuses 429 and 503 and a decimal number of 64 bits, capped by the maximum |
| Retry.UntilNextIsZeroExactly | src/registry.cpp:1773-1805 | the time to the next deadline is zero exactly when one has expired, and is the first moment one will |
| Retry.Backoff | src/registry.cpp:2553-2602 | wait slices are positive, at most a heartbeat, no longer than the time to the next deadline at the clock reading before them, and sum to the delay unless a deadline stops the run, which then has expired |
| Retry.TryOnce | src/registry.cpp:2371-2520 | one attempt makes at most redirects + 1 transport calls, follows exactly the redirects within the origin, stops for good exactly for an expired deadline, a foreign or refused redirect or a failure that is not retryable, and otherwise ends as its last reply says |
| Retry.FetchPage | src/registry.cpp:2364-2613 | one page makes at most attempts * (redirects + 1) calls; a success has a last reply of status 200 and waited exactly its pauses; a failure has its cause in the readings and replies used: an expired deadline, a reply that stops, a final status other than 200, or the last attempt spent; with open deadlines a first reply of 200 is a success after one call |
| Retry.CollectPages | src/registry.cpp:2333-2744 | the run terminates within pages * attempts * (redirects + 1) calls, and commits no page behind the run timeout or later than the stall timeout after the page before it; when deadlines stay open, replies are of status 200 and the verdicts come to a last page within the limit, it is complete |
| Retry.AnsweredPage | src/registry.cpp:2364-2613 | a page whose first reply is of status 200 in time is accepted, and the verdict on it decides |
| RegistryUrl.ParsedUrl | src/registry.cpp:1916-1979 | what a parsed URL looks like: lower-case scheme and host, port in range, plain HTTP only for local hosts, path without query, fragment or trailing slash |
| RegistryUrl.UrlExactly | src/registry.cpp:1916-1979 | a text is accepted exactly when it is a scheme http or https in any case, "://", a host without credentials (colons in brackets only), an optional port of 1 to 65535, and a path without query or fragment, plain HTTP for three local hosts only; the URL is its normal form with the default ports 80 and 443 |
| RegistryUrl.SameOriginExactly | src/registry.cpp:1981-1983 | two URLs have one origin exactly when their normalized origins are the same text |
| RegistryUrl.ParseOrigin | src/registry.cpp:1916-1979 | an origin with any path behind it parses back to that origin |
| RegistryUrl.NormalizeIdempotent | src/registry.cpp:1916-1979 | parsing a normalized URL gives the same URL |
| RegistryRequests.ParseRegistryUrl | src/registry.cpp:1916-1979 | the parser with its loops returns that URL or that error on every input |
| RegistryRequests.PercentInverse | src/registry.cpp:436-451 | percent-decoding undoes percent-encoding (section 2.1 of RFC 3986) |
| RegistryRequests.EncodedExactly | src/registry.cpp:436-451 | letters, digits and four marks stand for themselves, any other octet is a percent sign and two capital hexadecimal digits |
| RegistryRequests.PercentSafe | src/registry.cpp:436-451 | encoded text holds no separator of a URL |
| RegistryRequests.MakeApiUrl | src/registry.cpp:1985-2002 | the appended parameters give the API URL |
| RegistryRequests.ApiUrlExactly | src/registry.cpp:1985-2002 | the API URL spelled out: the path behind the base, the update time, the cursor, each encoded and in that order |
| RegistryRequests.ApiUrlInjective | src/registry.cpp:1985-2002 | two API URLs are equal exactly when cursor and update time are |
| RegistryRequests.ResolveAtOrigin | src/registry.cpp:978-1019 | a resolved redirect is at the origin; a relative one is refused exactly for a fragment or a query |
| RegistryRequests.AbsoluteResolved | src/registry.cpp:989-997 | an absolute location is accepted, as it stands, exactly without a fragment and at the origin |
| RegistryRequests.RelativeResolved | src/registry.cpp:999-1018 | a relative location is answered as its path behind the configured origin |
| RegistryRequests.RedirectPathExactly | src/registry.cpp:1001-1008 | that path is the location itself if it begins with a slash, and otherwise the directory of the current path with the location behind it |
| RegistryRequests.ChainAtOrigin | src/registry.cpp:978-1019 | every URL requested along any chain of redirects parses to the configured origin |
| Ustar.ParseOctal | src/analyze.cpp:1627-1640 | the octal loop reads the field as the reading function does and stays below 2^36 for twelve characters |
| Ustar.OctalExactly | src/analyze.cpp:1627-1640 | a field is accepted exactly when it is NULs and spaces, octal digits, and nothing or anything behind one more NUL or space; it is read as the number the digits spell |
| Ustar.HasParentSegment | src/analyze.cpp:1338-1349 | the loop over segments gives what HasParentExactly says of the path |
| Ustar.HasParentExactly | src/analyze.cpp:1338-1349 | the search finds a parent segment exactly when two dots stand between slashes or ends of the path |
| Ustar.SafeExactly | src/analyze.cpp:1670-1686 | the checks on a path pass exactly when it is not empty, begins with neither a slash nor a letter and a colon, and has no backslash and no such segment |
| Ustar.ParentOfJoin | src/analyze.cpp:1338-1349 | a joined path has a ".." segment exactly when a part has one |
| Ustar.HeaderSound | src/analyze.cpp:1660-1712 | a header that passes has a safe relative path, said by positions, and leaves room within every limit |
| Ustar.HeaderExactly | src/analyze.cpp:1660-1712 | a header passes exactly when its path is safe, its size an octal number within the limits, and it is no device or fifo |
| Ustar.ParseSound | src/analyze.cpp:1642-1733 | for every input, returned members have relative paths without ".." at any position between slashes, sizes, count and data bytes within limits, and block-aligned data inside the archive |
| Ustar.ParseUstar | src/analyze.cpp:1642-1733 | the loop terminates, stays in bounds and in 64 bits, and equals the reading function |
| Ustar.LinkEscapesExactly | src/analyze.cpp:1735-1750 | for members the reader returns, a link escapes exactly when it is empty, begins at a root or drive, or has ".." between slashes |
| Ustar.LinkEscapesAlways | src/analyze.cpp:1735-1750 | for any member path, a link escapes exactly for that, or when a directory of the path is ".." |
| UstarWriter.HeaderRead | src/analyze.cpp:1660-1723 | a written header passes every check and gives name, prefix, mode, size, type and link back |
| UstarWriter.WriterInverse | src/analyze.cpp:1642-1733 | the reader returns exactly the members a ustar writer wrote, in order, whatever the skipped fields hold |
| UstarWriter.MembersAreEntries | src/analyze.cpp:1718-1728 | those members are the entries one for one |
| SourceWindow.CutValid | src/analyze.cpp:4463-4474 | valid text cut at a character boundary is valid on both sides |
| SourceWindow.WindowValid | src/analyze.cpp:4421-4475 | the window of valid text is valid, at most the maximum long, and each end moved by at most three octets |
| SourceWindow.AnchorKeptExactly | src/analyze.cpp:4454-4474 | the anchor stays in the window of every valid text exactly when the maximum is at least 6 |
| SourceWindow.LineStartCounts | src/analyze.cpp:4425-4438 | the line found begins behind exactly as many newlines as there are lines before it, or at the end of a text that has fewer |
| SourceWindow.AnchorInExactly | src/analyze.cpp:4439-4452 | the anchor is half way into the first occurrence of the needle from the line on, if that begins in the line, and otherwise half way along the line |
| SourceWindow.NeedleExactly | src/analyze.cpp:4444-4446 | the needle is the symbol, or without one the evidence, short of three dots at its end |
| SourceWindow.RawWindowExactly | src/analyze.cpp:4454-4462 | the window before trimming is as long as it may be and starts half its length before the anchor unless an end of the text is nearer |
| SourceWindow.StartLineOfAnchor | src/analyze.cpp:4483-4488 | the reported first line is no later than the line of any position behind the window's start |
| SourceWindow.DisplayWindow | src/analyze.cpp:4421-4491 | the loops compute the window, its first line (one plus the newlines before it) and its flags |
| StorageRows.CountFindingIsRecount | tools/storage_v2_foundation.py:200-215 | the finding trigger's increments are what a recount gives after the insert |
| StorageRows.RedisposeIsRecount | tools/storage_v2_foundation.py:218-234 | the disposition trigger's decrements and increments are what a recount gives after the update |
| StorageRows.CountFileIsRecount | tools/storage_v2_foundation.py:151-163 | the file trigger's increments are what a recount gives |
| StorageRows.SumIsCount | tools/storage_v2_foundation.py:377-388 | occurrences over a set of rules add up to the rows those rules have |
| StorageSummaries.RuleTotals | tools/storage_v2_foundation.py:191-215 | per-rule occurrences add up to the finding count, and per severity to that severity's counter |
| StorageSummaries.OneReadModel | tools/storage_v2_foundation.py:312-389 | trigger-built and backfilled tables over the same rows are the same tables |
| StorageSummaries.DefinitionsAfterFinding | tools/storage_v2_foundation.py:177-189 | after INSERT OR IGNORE a finding agrees with its definition exactly when all findings of the rule agree |
| StorageDatabase.NoRuleRows | tools/storage_v2_foundation.py:377-388 | a run without a summary has no rule rows |
| StorageDatabase.RefreshRepairs | tools/storage_v2_foundation.py:392-405 | the refresh makes a row exact exactly when it was exact or held two zeros |
| StorageDatabase.ReviewRow | tools/storage_v2_foundation.py:218-234 | the disposition trigger keeps exact rows exact and version 1 rows in step; its CHECK constraints fail only on a version 1 row, for an unreviewed high or critical finding |
| StorageWriter.StuckRows | tools/storage_v2_foundation.py:63-65 | the column such a review decrements is zero exactly where the row is not what a recount gives |
| StorageWriter.CheckHolds | tools/storage_v2_foundation.py:218-234 | the CHECK constraints hold after the trigger exactly unless that column is zero before it |
| StorageWriter.ReviewFailsUntilRefreshed | tools/storage_v2_foundation.py:392-405 | in a version 1 database with one unreviewed high finding a review fails, and succeeds after the refresh |
| StorageWriter.Database.InsertFinding | tools/storage_v2_foundation.py:174-216 | the insert with its trigger succeeds exactly when rule metadata agree, and keeps all summaries equal to a recount |
| StorageWriter.Database.RecordRun | src/analyze.cpp:3953-4165 | the recording transaction adds exactly one run with its rows and an exact summary, or changes nothing |
| StorageWriter.Database.ReviewFinding | src/analyze.cpp:4534-4637 | a review is done exactly from the expected disposition to another one, changing that row alone; it is a conflict exactly when the finding is there and that does not hold, not found, refused for its arguments, or failed on a zero column; all summaries stay equal to a recount |
| StorageWriter.Database.BackfillRun | tools/storage_v2_foundation.py:322-388 | one run's summary, definitions and rule rows are built by counting, without collision, or its metadata disagree |
| StorageWriter.Database.Backfill | tools/storage_v2_foundation.py:312-389 | a batch fills the smallest missing ids, all or none, and succeeds exactly when rule metadata agree |
| StorageWriter.Database.RefreshIntersections | tools/storage_v2_foundation.py:392-405 | afterwards every summary equals a recount; exact tables are left alone |
| SchedulerRows.NeverDemotes | tools/bulk_static_analysis.py:241-311 | synchronizing keeps a completed row that names a matching run completed |
| SchedulerRows.SyncIdempotent | tools/bulk_static_analysis.py:241-311 | at a fixed time the rows after a second synchronization are those after the first |
| SchedulerRows.SyncedState | tools/bulk_static_analysis.py:241-311 | what a synchronization makes of a row's state in all cases: completed for a known run, classified, kept, or failed for its age |
| SchedulerRows.ReleasedExactly | tools/bulk_static_analysis.py:241-311 | a running row stops running exactly for a known run or a stale claim |
| SchedulerRows.RefusalForgotten | tools/bulk_static_analysis.py:263-275 | an unsupported or unresolvable result is eligible again after the next synchronization, unless a run is known |
| SchedulerRows.ClassifyExactly | tools/bulk_static_analysis.py:175-189 | a package is analysable exactly with registry npm or pypi, an identifier and a version; each refusal has its state, code and message |
| SchedulerRows.KnownExactly | tools/bulk_static_analysis.py:192-238 | a known run is the newest completed one of package and profile with an artifact, or else the verified one a completed row names |
| SchedulerRows.SyncedColumns | tools/bulk_static_analysis.py:241-311 | every column of an existing row after a synchronization |
| SchedulerRows.NewColumns | tools/bulk_static_analysis.py:241-311 | every column of a new row |
| SchedulerRows.BeforeExactly | tools/bulk_static_analysis.py:314-336 | the claim order is the lexicographic order by discovery, newest first, eligible before failed, attempts, and package id, highest first |
| SchedulerRows.BestExists | tools/bulk_static_analysis.py:314-336 | among candidates there is a first one in the claim order |
| SchedulerRows.BestIsUnique | tools/bulk_static_analysis.py:314-336 | and only one, the package id deciding last |
| StaticScheduler.Schedule.Synchronize | tools/bulk_static_analysis.py:241-311 | the loop and the recovery update give the synchronized rows; running rows are released exactly for a known run or a stale claim, completed rows stay completed, and the histories record each cause |
| StaticScheduler.Schedule.SynchronizeTwice | tools/bulk_static_analysis.py:241-311 | synchronizing again at once changes no row |
| StaticScheduler.Schedule.ClaimNext | tools/bulk_static_analysis.py:499-521 | a claim takes the first waiting package by that order and sets every column of its row, never a running row and only behind an answer or a recovery; none exactly when no package waits |
| StaticScheduler.Schedule.RecordResult | tools/bulk_static_analysis.py:594-624 | a result is recorded as it is, or as failed with the reason when a completed run does not verify or the write fails; it overwrites the row of another claim only if some claim was recovered before |
| StaticScheduler.RecordedColumns | tools/bulk_static_analysis.py:594-624 | every column a result leaves: its own, or those of a failed verification or write, with the message bounded and an empty one stored as none |
| StaticScheduler.Schedule.ClaimsBounded | tools/bulk_static_analysis.py:425-433 | in every reachable state attempts are claims, at most the maximum each and packages * maximum together |
| StaticScheduler.AllSyncedOk | tools/bulk_static_analysis.py:241-311 | synchronizing keeps every row in step with its package's history, in which each release carries its cause |
| StaticScheduler.ClaimedOnceReleased | tools/bulk_static_analysis.py:425-433 | between two claims of a package there is an answer or a recovery |
| StaticScheduler.FoundRunStays | tools/bulk_static_analysis.py:241-311 | once a run was found a package is not claimed before an answer arrives |
| StaticScheduler.AnswerFromNewest | tools/bulk_static_analysis.py:594-624 | in a history without a recovery every answer comes from the newest claim |
| StaticScheduler.Schedule.OneHolder | tools/bulk_static_analysis.py:425-433 | in every reachable state a row runs exactly while its last event is a claim, and the two lemmas before hold of its history |
| StaticScheduler.Schedule.NoIntrusion | tools/bulk_static_analysis.py:594-624 | without a recovery no result arrives while another claim holds the row |
| StaticScheduler.LateResult | tools/bulk_static_analysis.py:594-624 | a run in which a late result frees a package that another process is at work on, and a third claims it |
| CatalogFiles.ExpiredPrefix | tools/registry_maintenance.py:205-214 | the names pruning removes are the first of the sorted list |
| CatalogFiles.RefreshNameExactly | tools/registry_maintenance.py:200-203 | a backup is recognised exactly by the name of the database, a dot, eight digits, T, six digits, Z, a dash, eight lower-case hexadecimal digits and the suffix |
| Maintenance.Machine.PublishBackup | tools/registry_maintenance.py:172-194 | a published backup is a validated copy with matching digest, size and snapshot; other files never change; it succeeds exactly when no operation failed and the source is a valid catalog |
| Maintenance.Machine.Prune | tools/registry_maintenance.py:197-216 | pruning touches only expired backups and their metadata, succeeds exactly when no operation failed, and then has removed them all |
| Maintenance.BackupSurvives | tools/registry_maintenance.py:197-216 | a published backup survives pruning exactly when fewer than retention names sort behind it |
| Maintenance.Machine.Refresh | tools/registry_maintenance.py:287-412 | at every crash point the live path holds the old catalog or the checked new one; behind the swap the old one is backed up exactly under the retention condition, the expired backups are gone and all others as they were; it succeeds exactly when no operation failed and both catalogs are accepted |
| Maintenance.Machine.KeepsLast | tools/registry_maintenance.py:197-216 | the backups then left are the last ones by name of the old ones and the new one, as many as retention keeps, each old one unchanged |
| Maintenance.PrunedBackup | tools/registry_maintenance.py:197-216 | a refresh with retention one and a backup of a later name goes live and leaves, under no name at all, a backup of what it replaced |
| Maintenance.Machine.Restore | tools/registry_maintenance.py:428-520 | at every crash point the live path holds what it held or the checked backup, a valid live catalog having been backed up first; it succeeds exactly when no operation failed, the backup is intact and the recovery name is free |
| CatalogOrder.ChangesAreNames | src/explorer.cpp:1244-1247 | counting changes of name between neighbours counts the distinct names |
| CatalogOrder.NamesBetween | src/registry.cpp:3112-3116 | records between two of the same name have that name, by the order of name, newline and version |
| CatalogImport.LinkIsNew | src/explorer.cpp:1314-1321 | the link insert never meets an existing link |
| CatalogImport.NewExactly | src/explorer.cpp:1252-1312 | the inserted counter is the number of entries whose exact record was not there before |
| CatalogImport.ChangedExactly | src/explorer.cpp:1252-1312 | the changed counter is the number of those whose name and version were |
| CatalogImport.Catalog.ImportOne | src/explorer.cpp:1244-1322 | one round reuses or inserts the exact record, links it and advances every counter |
| CatalogImport.Catalog.Import | src/explorer.cpp:1134-1385 | the transaction: inserted + reused = links = the number of records, the records linked and no others, earlier links left alone, or nothing changed; it succeeds exactly when none of its database operations failed, no limit is exceeded and every record is readable |
| CatalogIndex.ValidatedIsOrdered | src/registry.cpp:3112-3116 | the entries the importer reads from a validated file are strictly ordered and as many as were counted |
| CatalogIndex.IndexBundle | src/explorer.cpp:1048-1385 | an import is refused exactly for an invalid bundle, is repeated exactly for a known digest, and otherwise is that transaction on the lines of the validated file, whose count is the manifest's |
| CatalogIndex.IndexAgain | src/explorer.cpp:1134-1154 | a repeated import changes nothing |
| History.StableSortedSorts | src/history.cpp:10-20 | the reference order is sorted by time and a permutation |
| History.StableSortedIsStable | src/history.cpp:10-20 | observations of the same time keep their order |
| History.CleanExactly | src/history.cpp:24-73 | nothing stops the pass exactly when every line is blank or an observation and both limits hold |
| History.ProblemExactly | src/history.cpp:24-73 | which lines stop it, by kind, with what would be there behind them |
| History.TargetHistory.Update | src/history.cpp:10-20 | one update keeps the last two observations of the stable order, for any order of input |
| History.AnalyzeHistory | src/history.cpp:24-73 | the pass succeeds exactly on such a file; it counts records and targets, finds the earliest and latest time, keeps the target's last two, or stops at the first bad line |
| Inventory.CheckTools | src/inventory.cpp:89-98 | the two checks accept exactly lists sorted strictly by name |
| Inventory.CompareInventories | src/inventory.cpp:421-454 | the merge returns exactly the names added, removed and redefined, in order |

## Left out

- Collection.ResumeExactly: takes checkpoints of versions 2 and 3; version 1, which lists artifacts, is not modelled.
- CollectRun.CommitPage: models `checkpoint.json` and `pages.jsonl` as structured values with arbitrary digests of them,
  not as JSON text; the heartbeat files and progress lines are not modelled.
- CollectRun.Collect: takes it as given whether the fields named in the next line validate, in one flag for the run.
- ValidBundle.ValidateBundle: takes the manifest as a structured value, and what else is checked in it and in the page lines
  (URLs, mode, formats, its own size) as one flag.
- Retry.CollectPages: takes what each committed page decides (more, last, refused) as an arbitrary function; the commit
  itself is modelled in CollectRun.
- Sha256.HashInPlace: models words as numbers with bitwise operations defined bit by bit, and shifts as halving and doubling.
- Ustar.ParseUstar: requires an archive no longer than a string can be (below 2^63 octets); gzip and the JSON inventory of
  members are not modelled.
- StorageWriter.Database.RecordRun: a rule definition is identified by ruleset and rule instead of a row id, and everything
  else that can fail in the transaction is one boolean.
- StaticScheduler.Schedule.RecordResult: takes the child's outcome as given, without the parsing of its output and the
  matching of its error text; bounding a message is an arbitrary function of it, and package fields never change.
- StaticScheduler.Schedule.Synchronize: one profile key; package fields are taken as already stripped and lowered.
- Maintenance.Machine.Refresh: a SQLite backup is an equal copy, an incomplete file is one opaque content, and the refresh
  command leaves an arbitrary staged catalog.
- CatalogIndex.IndexBundle: the tables of packages, remotes and repositories, full-text search and database size limits are
  not modelled, and whether those members of a line are readable is an arbitrary function of it; any database failure is an
  arbitrary function of the step.
- History.AnalyzeHistory: takes each line as already classified (blank, too long, unreadable, an observation with a time).
- The runtime-discovery scheduler repeats the claim, recovery and result transitions of the static one and is not modelled.
- The coverage summary is a query over the schedule and the run summaries and is not modelled.
- The remote prober, the rules scanner, file-type classification and report formatting are not modelled.
- Process spawning, TLS, curl, Docker, fsync, symbolic links, SQL text and schema migration are not modelled.
