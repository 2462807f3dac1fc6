# A verified model of nine small programs

This project models the algorithms and state machines of nine programs of the repository in Dafny and proves what they
promise. Code that works by changing things in place is a class or a method with loops; each such method is proved
equal to a function over values, and the theorems are about whole runs of those functions.

- **Arena logger** (`IndexLists`, `LoggerSpec`, `LoggerTheorems`, `Logger`): sixteen chunks of one arena, linked by
  index into a free list and a queue, with one asynchronous write in flight. The disk is an arbitrary function that
  accepts the n-th write or fails it at once. The drop policy, the conservation of chunks and the order of bytes hold
  in every reachable state.
- **Credential store** (`Base64`, `CredentialFile`, `CredentialSpill`, `CredentialStore`): Base64, a tab-separated file
  read through a 4096-byte buffer, what a path that does not fit the format spills, and save, find and remove, each of
  which reloads the file.
- **MMDB reader** (`ByteNumbers`, `MmdbDecoder`, `MmdbLayout`, `MmdbTheorems`, `MmdbCycles`, `MmdbTrie`, `MmdbViewer`):
  the recursive decoder with pointers and size classes against every layout of a value tree, cycles, and trie lookup
  against a linear scan.
- **GPS parsing** (`NmeaSentence`, `TinyGpsNumbers`, `TinyGpsCustom`, `TinyGpsRegistration`, `TinyGps`,
  `TinyGpsTheorems`, `TinyGpsMeaning`, `TinyGpsPublished`): the whole-string validator, parser and printer; the
  byte-at-a-time parser with its staged values, its 32-bit arithmetic and its sorted list of custom elements; how the two
  parsers agree; and what a sentence publishes, term by term.
- **SMTP session** (`SmtpSession`): line framing over arbitrary chunks that drives commands and data mode.
- **UUIDv7** (`Uuid`): packing, accessors, text form, byte order, and monotonicity under any clock.
- **Condition-variable handshake** (`CompletionContext`): every interleaving of caller and callback, with spurious
  wakeups and unlimited reuse of one context.
- **String replacement** (`StringReplacement`): the two-pass replacer, the title placeholder and the path expansion
  loops against one greedy definition.
- **Command-line parser** (`ArgTable`, `ArgTableErrors`): the argument loop against the meaning of the options, whatever
  their spelling, and which counts it reports.

## Where the code differs from what one might expect

- Logger: a line longer than a chunk, met while a chunk is free, fails the assertion of `queue_for_write`
  (`LoggerTheorems.AssertionPolicy`). The second check for a free chunk never fires in a reachable state.
- Credential store: a host that is given but empty is stored and then not found (`CredentialSpec.EmptyHostIsLost`); the
  exact condition is in `SaveThenFind`. A line break in a path adds entries to the file, which other lookups find
  (`CredentialSpec.SpilledEntryIsFound`). Removal never takes an entry without a protocol, so a lookup after it can still
  succeed; `RemoveThenFind` says exactly when. The line limit is 4095 characters without the newline.
- Sentence validation: the loop counter is a byte, so the loop runs forever if and only if the checksum mark lies beyond
  index 255 (`NmeaSentence.LoopEnds`); the verdict `Hangs` stands for that (`HangsExactly`).
- The streaming parser accepts lower-case checksum digits and the validator does not
  (`TinyGpsTheorems.LowerCaseDiverges`). It compares a sentence name of one `G` together with what an earlier term left
  in the buffer (`TinyGpsMeaning.LoneGIsMistaken`), and its test of the talker letter also accepts the terminator of a
  string (`TerminatorIsTalker`); `NameDecides` says that these are the only names it mistakes, and exactly when.
- An empty term stages nothing, so an accepted sentence can publish a value that came with a rejected one
  (`TinyGpsPublished.RejectedSpeedIsPublished`). A term number has eight bits and shares them with the sentence type, so
  the terms from the 34th on are read as those of an RMC sentence again, and the 257th as a new sentence name.
- Degrees: minutes above 85.89 wrap in 32 bits; `DegreesAreNearest` has the exact
  condition, and minutes below 60 never do.
- Custom elements: a registration between the first term and the checksum breaks the scans if and only if it has the name
  and either nothing had the name or it has a smaller term number than the candidate
  (`TinyGpsRegistration.ScansStayExact`, `FirstRegistrationIsMissed`, `LateRegistrationIsMissed`).
- SMTP: lines behind QUIT in the same read are still processed, lines in a later read are not
  (`SmtpSpec.MailBehindQuitInFull`); `SplitsAgreeExactly` says for which streams that matters. Replies never depend on the
  chunks.
- UUID: the order breaks if and only if the counter passes 48 bits (`UuidGenerator.IncreasingExactly`; in terms of the
  clock, `ReadingsDecide`), and a standing clock gets it there (`StandingRunBreaks`).
- Options: a flag given more often than its maximum is not reported (`ArgTableErrors.TwiceIsNotReported`,
  `ExtraFlagIsSilent`); of counts, only those that are too small are (`CountErrors`).

## Model

| member | source | states |
|---|---|---|
| LoggerTheorems.RunTheorem | vibecoding/arena-logger/module.c:119-221 | in every reachable state each of the 16 chunks is in exactly one of free list, current and queue, one write is outstanding iff the queue is non-empty, and bytes handed to the disk, queued and current are the accepted lines in order |
| LoggerTheorems.ChunkCount | vibecoding/arena-logger/module.c:80-87 | free, current and queued chunks together number 16 |
| LoggerTheorems.LogKeeps | vibecoding/arena-logger/module.c:119-158 | one call of the logging function keeps that accounting and adds exactly the accepted line to the byte stream |
| LoggerTheorems.LogOutcome | vibecoding/arena-logger/module.c:119-158 | with all chunks accounted for: rejected with backpressure and unchanged if full, else accepted or the assertion fails; at most two activations |
| LoggerTheorems.DropPolicy | vibecoding/arena-logger/module.c:127-149 | in every reachable state, a line that fits a chunk is rejected iff no chunk is free and the current one has no room; a rejected call changes nothing; the self-call happens at most once |
| LoggerTheorems.AssertionPolicy | vibecoding/arena-logger/module.c:145-161 | the assertion fails exactly for a line longer than a chunk met while a chunk is free |
| LoggerTheorems.OnWriteKeeps | vibecoding/arena-logger/module.c:187-213 | completion keeps the accounting and the stream, through any number of immediate write failures |
| LoggerTheorems.FlushKeeps | vibecoding/arena-logger/module.c:215-221 | flushing keeps the accounting and the stream |
| LoggerTheorems.WriteDoneShortens | vibecoding/arena-logger/module.c:229-232 | every completion shortens the queue, so draining ends |
| LoggerTheorems.DestroyWritesEverything | vibecoding/arena-logger/module.c:223-241 | destroying the logger after any run has handed to the disk every accepted line in order and nothing else |
| ArenaLogger.Logger.constructor | vibecoding/arena-logger/module.c:61-105 | the loop over the chunks builds the free list of the initial state |
| ArenaLogger.Logger.OnOpen | vibecoding/arena-logger/module.c:107-117 | records whether the log is open |
| ArenaLogger.Logger.Log | vibecoding/arena-logger/module.c:119-158 | the method over the arena and the links refines the abstract call |
| ArenaLogger.Logger.LogInto | vibecoding/arena-logger/module.c:145-158 | the same for the part behind the choice of the current chunk |
| ArenaLogger.Logger.LogPolicy | vibecoding/arena-logger/module.c:127-149 | the drop policy, for the object itself |
| ArenaLogger.Logger.TakeFree | vibecoding/arena-logger/module.c:135-139 | takes the head of the free list as the current, empty chunk |
| ArenaLogger.Logger.CopyLine | vibecoding/arena-logger/module.c:151-155 | writes the line, with a newline if it had none, and no other byte of the arena |
| ArenaLogger.Logger.Append | vibecoding/arena-logger/module.c:151-157 | extends the current chunk by the line and leaves the bytes of every queued chunk alone |
| ArenaLogger.Logger.QueueForWrite | vibecoding/arena-logger/module.c:160-174 | links the chunk behind the tail and starts the write if it is alone |
| ArenaLogger.Logger.Enqueue | vibecoding/arena-logger/module.c:162-169 | the linking keeps both lists acyclic and disjoint, with head, tail and count agreeing |
| ArenaLogger.Logger.StartAsyncWrite | vibecoding/arena-logger/module.c:176-185 | submits the bytes of the head; on failure recycles it and goes on, ending by the length of the queue |
| ArenaLogger.Logger.OnWrite | vibecoding/arena-logger/module.c:187-213 | takes the chunk off the queue, recycles it and starts the next write |
| ArenaLogger.Logger.Dequeue | vibecoding/arena-logger/module.c:198-203 | the queue loses its head and nothing else |
| ArenaLogger.Logger.Recycle | vibecoding/arena-logger/module.c:205-208 | the chunk becomes the head of the free list |
| ArenaLogger.Logger.Flush | vibecoding/arena-logger/module.c:215-221 | refines the abstract flush |
| ArenaLogger.Logger.CompleteWrite | vibecoding/arena-logger/module.c:187-213 | one completion of the outstanding write |
| ArenaLogger.Logger.Destroy | vibecoding/arena-logger/module.c:223-232 | flush and drain loop refine the abstract ones |
| Base64.RoundTrip | git-credential-helper/c-project/src/credential_store.c:45-93 | decoding an encoded byte string returns it |
| Base64.EncodeUsesAlphabet | git-credential-helper/c-project/src/credential_store.c:42-63 | encoded text has only alphabet characters and padding |
| Base64.EncodeLength | git-credential-helper/c-project/src/credential_store.c:45-63 | four characters for every three bytes begun |
| Base64.DecodeLength | git-credential-helper/c-project/src/credential_store.c:75-93 | decoded text is never longer than the buffer allocated for it |
| Base64.B64Encode | git-credential-helper/c-project/src/credential_store.c:45-63 | the index loop into a buffer computes the encoding |
| Base64.B64Decode | git-credential-helper/c-project/src/credential_store.c:75-93 | the index loop into a buffer computes the decoding |
| CredentialFile.ParseLineOfPrint | git-credential-helper/c-project/src/credential_store.c:127-150 | a printed storable entry parses back to itself, empty strings standing for null |
| CredentialFile.ParsedIsStorable | git-credential-helper/c-project/src/credential_store.c:127-150 | whatever a buffer holds, a parsed entry is storable again |
| CredentialFile.BuffersOfFullLine | git-credential-helper/c-project/src/credential_store.c:170-176 | a line that fills the 4096-byte buffer leaves its newline to the next read |
| CredentialFile.LoadedAreStorable | git-credential-helper/c-project/src/credential_store.c:165-178 | every entry of a loaded file can be stored again |
| CredentialFile.SaveThenLoad | git-credential-helper/c-project/src/credential_store.c:165-205 | saving and loading returns the list (null for empty) if and only if every entry is storable: no tab, CR or LF in protocol, host and user, none of CR and LF in the path, no leading comment mark, and a line that fits the buffer |
| CredentialSpec.AnySave | git-credential-helper/c-project/src/credential_store.c:216-272 | what any query finds after any save: its match before the written entry, else whatever matches in what the written line is read as, else its match behind the written entry |
| CredentialSpec.SaveThenFind | git-credential-helper/c-project/src/credential_store.c:216-272 | after a save whose protocol, host, user and password fit a line, the lookup of the same triple finds an entry iff the host is non-empty, and then the saved password, whatever the path |
| CredentialSpec.SaveKeepsOtherQueries | git-credential-helper/c-project/src/credential_store.c:216-272 | the answer of every other query after a save: kept if its match comes before the written entry, and behind it unless an entry spilled by the path matches; without a match it finds a new entry that matches, or what was spilled |
| CredentialSpec.StorableSaveKeepsOthers | git-credential-helper/c-project/src/credential_store.c:216-272 | when the path fits too, every query but that for the entry keeps its answer, and one without an answer gets one only from a new entry that matches it |
| CredentialSpill.LoadFront | git-credential-helper/c-project/src/credential_store.c:165-178 | a line whose path does not fit is read back as its entry with the path cut, and the rest of the line as if it were the file |
| CredentialSpill.NothingSpills | git-credential-helper/c-project/src/credential_store.c:165-178 | a storable entry comes back whole and adds nothing |
| CredentialSpill.LineBreakAddsAnEntry | git-credential-helper/c-project/src/credential_store.c:187-196 | a path with a line break in front of the text of an entry adds that entry to the file |
| CredentialSpec.SpilledEntryIsFound | git-credential-helper/c-project/src/credential_store.c:216-272 | a literal credential whose save makes a lookup for another host, which found nothing, find an entry |
| CredentialSpec.EmptyHostIsLost | git-credential-helper/c-project/src/credential_store.c:222-228 | a concrete credential with an empty host that is saved and not found |
| CredentialSpec.RemoveThenFind | git-credential-helper/c-project/src/credential_store.c:274-290 | after a removal the other entries are there in order, and the lookup fails iff no matching entry lacked a protocol |
| CredentialSpec.KeptLength | git-credential-helper/c-project/src/credential_store.c:276-286 | something is removed exactly when some entry matches |
| CredentialStore.CredList.Append | git-credential-helper/c-project/src/credential_store.c:156-163 | the growing array takes one more entry and keeps the others |
| CredentialStore.Store.LoadAll | git-credential-helper/c-project/src/credential_store.c:165-178 | the read loop yields the entries of the file |
| CredentialStore.Store.SaveAll | git-credential-helper/c-project/src/credential_store.c:180-205 | the print loop writes the header and one line an entry |
| CredentialStore.Store.IndexOf | git-credential-helper/c-project/src/credential_store.c:220-229 | the search loop finds the first match, null fields matching anything |
| CredentialStore.Store.StoreSave | git-credential-helper/c-project/src/credential_store.c:216-248 | updates the first match or appends, and rewrites the file |
| CredentialStore.Store.StoreFind | git-credential-helper/c-project/src/credential_store.c:250-272 | returns the first match of the reloaded file |
| CredentialStore.Store.KeepOthers | git-credential-helper/c-project/src/credential_store.c:276-285 | the filter loop keeps exactly the entries that do not match |
| CredentialStore.Store.StoreRemove | git-credential-helper/c-project/src/credential_store.c:274-290 | rewrites the file without the matches, or leaves it and fails |
| MmdbLayout.DecodeLaid | python/mmdb_viewer.py:41-151 | a value tree with well-formed strings, laid out anywhere with any size classes and pointers, decodes to its value and the offset behind its own bytes |
| MmdbLayout.IllFormedString | python/mmdb_viewer.py:92-95 | a string that is not well-formed UTF-8 fails |
| MmdbLayout.DecodeSizeOfBytes | python/mmdb_viewer.py:79-90 | each of the four size classes is read back with its bias |
| MmdbLayout.DecodePointerOfBytes | python/mmdb_viewer.py:53-77 | each of the four pointer classes is read back with its bias |
| MmdbTheorems.RoundTrip | python/mmdb_viewer.py:41-151 | every encodable value, encoded anywhere in a file, decodes to itself and the exact next offset |
| MmdbTheorems.PointersAreTransparent | python/mmdb_viewer.py:75-77 | replacing subvalues by pointers to them leaves the decoded value unchanged |
| MmdbTheorems.DictKeepsLast | python/mmdb_viewer.py:123-131 | a decoded map answers with the last value under a string key |
| MmdbTheorems.DepthIrrelevant | python/mmdb_viewer.py:41-151 | a higher recursion limit never changes a result other than the recursion error |
| MmdbCycles.CyclesNeverDecode | python/mmdb_viewer.py:53-138 | no value of a cycle through pointers, arrays and maps, of any length, is decoded under any recursion limit |
| MmdbCycles.PointerRingsExhaustTheLimit | python/mmdb_viewer.py:75-77 | a ring of pointers of any length and any widths ends in the recursion error, so acyclic pointers are needed |
| MmdbTrie.ReadPackedNode | python/mmdb_viewer.py:153-171 | reading inverts the 24-, 28- and 32-bit packing of any pair of records |
| MmdbTrie.ReadPackedTree | python/mmdb_viewer.py:153-171 | the same for every node of a packed tree |
| MmdbTrie.WalkIsScan | python/mmdb_viewer.py:193-211 | the walk finds what a linear scan over all leaf prefixes finds |
| MmdbTrie.LeavesDisjoint | python/mmdb_viewer.py:193-211 | the leaf prefixes are pairwise disjoint |
| MmdbTrie.UniqueLeaf | python/mmdb_viewer.py:193-211 | an address lies under at most one leaf |
| MmdbTrie.WalkFindsTheLeaf | python/mmdb_viewer.py:193-211 | the walk returns the record of the leaf above the address |
| MmdbViewer.Viewer.FindMetadataMarker | python/mmdb_viewer.py:34-39 | the offset behind the last marker, or an error exactly when there is none |
| MmdbViewer.Viewer.Decode | python/mmdb_viewer.py:41-151 | the method with its advancing offset computes the decoder function |
| MmdbViewer.Viewer.DecodeMap | python/mmdb_viewer.py:123-131 | the map loop decodes all pairs and keeps string keys |
| MmdbViewer.Viewer.DecodeArray | python/mmdb_viewer.py:133-138 | the array loop decodes all items in order |
| MmdbViewer.Viewer.Lookup | python/mmdb_viewer.py:173-211 | the loop over the address bits computes the lookup function |
| MmdbViewer.Viewer.LookupIsScan | python/mmdb_viewer.py:153-211 | on a file with a packed tree the answer is the value of the unique leaf whose prefix starts the address, or None |
| NmeaSentence.LoopEnds | nmea-gps/include/nmea/sentence.cpp:89-98 | the checksum loop with its wrapping byte counter ends iff the index is at most 255, and then with the exclusive or of the bytes in between |
| NmeaSentence.HangsExactly | nmea-gps/include/nmea/sentence.cpp:56-98 | validation hangs exactly on a string that reaches the loop with a checksum mark that no value of the counter reaches |
| NmeaSentence.PrintedValidates | nmea-gps/include/nmea/sentence.cpp:56-104 | everything printed validates |
| NmeaSentence.CorruptionIsRejected | nmea-gps/include/nmea/sentence.cpp:56-104 | changing any one byte between start mark and checksum mark, to whatever else, makes an accepted string rejected |
| NmeaSentence.ParseOfPrinted | nmea-gps/include/nmea/sentence.cpp:10-48 | a printed sentence parses back to the same talker, type and fields |
| NmeaSentence.PrintThenParse | nmea-gps/include/nmea/sentence.cpp:10-48 | printing and parsing returns the sentence if and only if it has a field, a three-character type and no comma in its parts |
| NmeaSentenceClass.SentenceObject.FromString | nmea-gps/include/nmea/sentence.cpp:10-48 | the parsing constructor, in wrapping size arithmetic, with its exceptions |
| NmeaSentenceClass.SentenceObject.ReadFields | nmea-gps/include/nmea/sentence.cpp:20-47 | the field loop |
| NmeaSentenceClass.SentenceObject.ChecksumOf | nmea-gps/include/nmea/sentence.cpp:89-104 | the parity loop yields two upper-case digits of the exclusive or |
| NmeaSentenceClass.SentenceObject.NmeaString | nmea-gps/include/nmea/sentence.cpp:142-178 | the printing loop |
| NmeaSentenceClass.SentenceObject.SetField | nmea-gps/include/nmea/sentence.cpp:133-141 | replaces one existing field and nothing else |
| TinyGpsNumbers.ParseDegreesLoop | nmea-gps/include/TinyGPS++.cpp:130-151 | the loop over the fraction digits, in 32-bit arithmetic |
| TinyGpsNumbers.FractionTruncates | nmea-gps/include/TinyGPS++.cpp:143-148 | the shrinking multiplier computes the decimal fraction truncated to its last place |
| TinyGpsNumbers.DegreesAreNearest | nmea-gps/include/TinyGPS++.cpp:130-151 | billionths are the nearest integer to 5t/3 iff 5t+1 fits 32 bits, which minutes below 60 always do, and then are below 10^9 |
| TinyGpsNumbers.ParseDecimalLoop | nmea-gps/include/TinyGPS++.cpp:114-126 | the decimal parser, wrapping in 32 bits |
| TinyGpsNumbers.DecimalTruncates | nmea-gps/include/TinyGPS++.cpp:114-126 | a signed decimal becomes its hundredths truncated toward zero exactly when they fit 32 bits |
| TinyGpsCustom.InsertedIsSorted | nmea-gps/include/TinyGPS++.cpp:494-507 | insertion keeps the list a sorted permutation of all elements |
| TinyGpsCustom.CandidateIsFirst | nmea-gps/include/TinyGPS++.cpp:217-220 | the search finds the first element with the name, and none exactly when there is none |
| TinyGpsCustom.ScanIsExact | nmea-gps/include/TinyGPS++.cpp:193-195 | a scan meets all elements with its name iff it starts at the candidate a search would find now |
| TinyGpsCustom.ScansTouchExactly | nmea-gps/include/TinyGPS++.cpp:278-281 | from a fresh candidate the scans set and commit exactly the elements with the name (and term number) |
| TinyGpsRegistration.EventsArePerformed | nmea-gps/include/TinyGPS++.cpp:193-281 | the search, the set scan and the commit scan of the parser are the steps of these runs |
| TinyGpsRegistration.ScansStayExact | nmea-gps/include/TinyGPS++.cpp:494-507 | after any registrations and terms behind the first term, the scans still meet every element of the name iff no registration of the name came when nothing had it or with a smaller term number than the candidate |
| TinyGpsRegistration.CommitStaysExact | nmea-gps/include/TinyGPS++.cpp:193-195 | under the same condition, exactly, the checksum publishes what a run would publish in which every element of the name is set and committed |
| TinyGpsRegistration.LateRegistrationIsMissed | nmea-gps/include/TinyGPS++.cpp:193-195 | an element for term 1 registered behind a candidate for term 5 is not published |
| TinyGpsRegistration.FirstRegistrationIsMissed | nmea-gps/include/TinyGPS++.cpp:193-195 | an element registered when nothing has its name is not published |
| TinyGpsCustom.Registry.InsertCustom | nmea-gps/include/TinyGPS++.cpp:494-507 | the splice keeps the linked list acyclic and inserts at the sorted place |
| TinyGpsCustom.Registry.FindCandidates | nmea-gps/include/TinyGPS++.cpp:217-220 | the search loop over the linked list |
| TinyGpsCustom.Registry.SetScan | nmea-gps/include/TinyGPS++.cpp:278-281 | the set loop, which stops early, sets what a full pass would |
| TinyGpsCustom.Registry.CommitScan | nmea-gps/include/TinyGPS++.cpp:193-195 | the commit loop, which stops early, commits what a full pass would |
| TinyGpsSpec.Encode | nmea-gps/include/TinyGPS++.cpp:54-107 | the term offset never exceeds 14, and a step that completes no valid sentence leaves all published values alone |
| TinyGpsSpec.EndOfTerm | nmea-gps/include/TinyGPS++.cpp:157-284 | only a checksum term can be valid, and only a valid one publishes |
| TinyGpsTheorems.NothingPublished | nmea-gps/include/TinyGPS++.cpp:54-205 | bytes that complete no valid sentence change no published value, flag included |
| TinyGpsTheorems.AcceptedWhenMatching | nmea-gps/include/TinyGPS++.cpp:54-205 | from any state, a sentence of any length is accepted, on its line end and not before, iff its checksum digits stand for the exclusive or of its body |
| TinyGpsTheorems.AcceptorAgreesWithValidator | nmea-gps/include/nmea/sentence.cpp:56-104 | up to 254 body bytes the validator accepts iff the streaming parser does and the digits are upper case; beyond, it hangs |
| TinyGpsTheorems.LowerCaseDiverges | nmea-gps/include/TinyGPS++.cpp:103-111 | a sentence with a lower-case digit that one parser accepts and the other rejects |
| TinyGpsMeaning.SentenceMeaning | nmea-gps/include/TinyGPS++.cpp:54-284 | from any state, the data after a whole sentence of any number of terms is the fold of its terms, cut to 14 bytes, over the staged values and the buffer, committed iff the checksum matches |
| TinyGpsMeaning.NameDecides | nmea-gps/include/TinyGPS++.cpp:208-214 | the parser takes a name for another type than `G`, one of five letters and the type exactly for a lone `G` in front of a known name left in the buffer, and for a `G` and a terminator in front of a known name |
| TinyGpsMeaning.LoneGIsMistaken | nmea-gps/include/TinyGPS++.cpp:208-214 | behind `$GPRMC,` the sentence name `G` is taken for RMC |
| TinyGpsMeaning.TerminatorIsTalker | nmea-gps/include/TinyGPS++.cpp:210-213 | a name with a terminator in the place of the talker letter is taken for RMC |
| TinyGpsPublished.SentenceStages | nmea-gps/include/TinyGPS++.cpp:157-276 | what a sentence of any number of terms stages and, with a matching checksum, publishes: each non-empty term under its number over what was staged before, in blocks of 256 |
| TinyGpsPublished.RmcPublishes | nmea-gps/include/TinyGPS++.cpp:169-276 | an accepted RMC sentence, empty terms included, publishes time and date and, with status A, position, fix mode, speed and course: each from its own term of the last block if that is not empty, else what was staged last; without that status those stay |
| TinyGpsPublished.GgaPublishes | nmea-gps/include/TinyGPS++.cpp:169-276 | an accepted GGA sentence, empty terms included, publishes time, satellites and dilution and, with a fix, position, quality and altitude, in the same way |
| TinyGpsPublished.OneBlock | nmea-gps/include/TinyGPS++.cpp:54-80 | a sentence of at most 256 terms is its own last block, with nothing in front of it |
| TinyGpsPublished.RejectedValueSurfaces | nmea-gps/include/TinyGPS++.cpp:169-276 | the speed of a sentence with a failing checksum is published by an accepted one whose own speed is empty |
| TinyGpsPublished.RejectedSpeedIsPublished | nmea-gps/include/TinyGPS++.cpp:169-276 | `$GPRMC,,,,,,,5*00` and then `$GPRMC,,A,,,,,*26` publish the speed of the first, rejected one |
| TinyGpsMeaning.FeedTerm | nmea-gps/include/TinyGPS++.cpp:91-96 | the buffer holds the first 14 bytes of the term over what it held before |
| TinyGps.TinyGpsPlus.Encode | nmea-gps/include/TinyGPS++.cpp:54-100 | the method over the term buffer, the fields and the registry refines the step function |
| TinyGps.TinyGpsPlus.EndOfTermHandler | nmea-gps/include/TinyGPS++.cpp:157-284 | the handler refines its function, the custom scans included |
| SmtpParser.TrimSplits | vibecoding/smtp-server-uv/smtp_parser.cpp:5-10 | trimming takes blanks off both ends and leaves none there |
| SmtpParser.SyntaxErrorMeansBlank | vibecoding/smtp-server-uv/smtp_parser.cpp:12-14 | a line is no request exactly when it is blank |
| SmtpParser.CutAtSpace | vibecoding/smtp-server-uv/smtp_parser.cpp:16-18 | name and argument are the parts around the first space |
| SmtpParser.CommandIgnoresCase | vibecoding/smtp-server-uv/smtp_parser.cpp:12-32 | lines that differ only in the case of the command word give the same command and argument |
| SmtpSpec.ChunksDoNotMatter | vibecoding/smtp-server-uv/smtp_session.cpp:45-70 | for every split into reads of a stream that does not close the session the final state is that of one read; if it closes, replies are the same and no split saves a mail that one read does not |
| SmtpSpec.ChunksAreOneRead | vibecoding/smtp-server-uv/smtp_session.cpp:45-70 | reading in chunks is one read of the bytes up to the end of the first chunk that closes the session |
| SmtpSpec.SplitsAgreeExactly | vibecoding/smtp-server-uv/smtp_session.cpp:45-70 | all ways to cut a stream into reads save the mails of one read iff no lone dot ends a transaction behind an obeyed QUIT |
| SmtpSpec.MailBehindQuit | vibecoding/smtp-server-uv/smtp_session.cpp:64-69 | with a QUIT the saved mails do depend on the split |
| SmtpSpec.MailBehindQuitInFull | vibecoding/smtp-server-uv/smtp_session.cpp:64-69 | a literal stream whose mail is saved in one read and not in two |
| SmtpSpec.ClosedByQuit | vibecoding/smtp-server-uv/smtp_session.cpp:185-189 | a session is closed exactly by a QUIT command outside data mode |
| SmtpSpec.StreamRunsLines | vibecoding/smtp-server-uv/smtp_session.cpp:64-69 | every stream is processed as its CRLF lines, and the rest stays buffered |
| SmtpSpec.EverySessionIsConsistent | vibecoding/smtp-server-uv/smtp_session.cpp:88-206 | data mode implies a recipient, and outside it the data buffer is empty, for every session fed in any chunks |
| SmtpSpec.DataIsSaved | vibecoding/smtp-server-uv/smtp_session.cpp:88-99 | DATA, lines and the lone dot save one mail with exactly the CRLF lines between, the sender and the first recipient, and are answered 354 and 250 |
| SmtpSpec.MailsAreTransactions | vibecoding/smtp-server-uv/smtp_session.cpp:88-183 | the saved mails are the transactions from an obeyed DATA command to the next lone dot, one to one, in order and all of them, each with its text and the envelope at its command |
| SmtpSessionClass.SmtpSession.OnRead | vibecoding/smtp-server-uv/smtp_session.cpp:45-70 | the framing loop over the read buffer |
| SmtpSessionClass.SmtpSession.ProcessLine | vibecoding/smtp-server-uv/smtp_session.cpp:88-107 | refines the line function |
| SmtpSessionClass.SmtpSession.HandleCommand | vibecoding/smtp-server-uv/smtp_session.cpp:157-206 | refines the command function |
| SmtpSessionClass.SmtpSession.SaveEmail | vibecoding/smtp-server-uv/smtp_session.cpp:120-155 | appends one mail with cleaned sender and first recipient |
| SmtpSessionClass.SmtpSession.Write | vibecoding/smtp-server-uv/smtp_session.cpp:27-28 | sends unless closed |
| UuidText.OrderIsNumeric | uuid.v7/uuid_v7.cpp:75 | byte order is the order of the numbers the bytes stand for |
| UuidText.FromStringAccepts | uuid.v7/uuid_v7.cpp:99-108 | parsing succeeds exactly on hex digits and hyphens with 32 digits |
| UuidText.RoundTrip | uuid.v7/uuid_v7.cpp:80-117 | every UUID's text parses back to it |
| UuidText.TextOrderIsByteOrder | uuid.v7/uuid_v7.cpp:75-95 | texts sort as the bytes do |
| UuidText.FromStringLoop | uuid.v7/uuid_v7.cpp:99-117 | the two loops of the parser |
| UuidGenerator.AccessorsOfPacked | uuid.v7/uuid_v7.cpp:51-71 | the accessors recover the timestamp (modulo 2^48), the sequence (modulo 4096), version 7 and variant 2 |
| UuidGenerator.TimestampLoop | uuid.v7/uuid_v7.cpp:51-56 | the shifting loop reads the first six bytes as a number |
| UuidGenerator.PackedOrder | uuid.v7/uuid_v7.cpp:170-201 | timestamp and sequence decide the byte order, whatever the random tails |
| UuidGenerator.CounterIsBounded | uuid.v7/uuid_v7.cpp:204-222 | the sequence stays at most 4095, the counter time is never behind the largest reading M, and 4096*last_ms+seq is at most 4096*M plus the number of calls |
| UuidGenerator.RunIncreases | uuid.v7/uuid_v7.cpp:204-222 | all UUIDs of a run increase strictly in byte order while the counter time stays below 2^48, whatever the clock |
| UuidGenerator.IncreasingExactly | uuid.v7/uuid_v7.cpp:204-222 | under any clock that fits 48 bits, a run from the start increases iff its counter time stays below 2^48 |
| UuidGenerator.LastStateDecides | uuid.v7/uuid_v7.cpp:204-222 | short of 2^64 it increases iff the counter time at its end is below 2^48 |
| UuidGenerator.ReadingsDecide | uuid.v7/uuid_v7.cpp:204-222 | in terms of the clock alone: a run increases iff it has fewer than 4096*2^48 calls and no reading is followed by so many that 4096*reading plus their number reaches that |
| UuidGenerator.LeavingBreaksOrder | uuid.v7/uuid_v7.cpp:214-218 | the output where the counter leaves 48 bits is smaller than the one before it |
| UuidGenerator.StandingRunBreaks | uuid.v7/uuid_v7.cpp:214-218 | 4097 calls under a clock that stands in the last millisecond reach 2^48 and are not increasing |
| UuidGenerator.Generator.Next | uuid.v7/uuid_v7.cpp:204-222 | the step on the thread state |
| UuidGenerator.Generator.GenerateBatch | uuid.v7/uuid_v7.cpp:244-250 | the batch loop yields the outputs of its readings in order |
| Handshake.RunKeepsInv | tigerbeetle/samples/main.c:261-314 | the invariant of threads, mutex and context holds after every interleaving of any length |
| Handshake.SuccessMeansOwnAnswer | tigerbeetle/samples/main.c:284-314 | success means the context holds reply and size of that round's answer, and no thread can touch it before the next round |
| Handshake.NoLostWakeup | tigerbeetle/samples/main.c:299-305 | while the caller sleeps, the callback of its round has not yet signalled |
| Handshake.MutualExclusion | tigerbeetle/samples/main.c:274-281 | the two critical sections never overlap |
| Handshake.AnswersAreFinal | tigerbeetle/samples/main.c:149-196 | the answer of a round is never replaced, however many rounds reuse the context |
| Handshake.NeverStuck | tigerbeetle/samples/main.c:284-314 | inside a round some thread can always go on without a spurious wakeup |
| Handshake.RoundsEnd | tigerbeetle/samples/main.c:284-314 | a run inside a round is bounded by what was left of it plus three steps for each spurious wakeup |
| Handshake.CopyingCopies | tigerbeetle/samples/main.c:276 | the byte-wise copy overwrites the front of the buffer |
| Handshake.CompletionContext.OnCompletion | tigerbeetle/samples/main.c:261-282 | the critical section of the callback on the shared fields |
| ReplacementSpec.TwoPassesAreGreedy | blog/src/include/stringUtil.hpp:63-139 | rebuilding at the matches found is greedy left-to-right replacement of at most k occurrences |
| ReplacementSpec.MatchesAreSpaced | blog/src/include/stringUtil.hpp:89-106 | matches do not overlap, lie inside the text and number at most k |
| ReplacementSpec.RebuiltLength | blog/src/include/stringUtil.hpp:108-112 | the exact number of bytes written |
| ReplacementSpec.OutputSizeWraps | blog/src/include/stringUtil.hpp:108-112 | the wrapping size computation is the true size modulo 2^64, also when the replacement is shorter |
| StringReplacement.StringReplacer.FindMatches | blog/src/include/stringUtil.hpp:89-106 | the match loop |
| StringReplacement.StringReplacer.PerformReplacement | blog/src/include/stringUtil.hpp:114-139 | the copy loops fill the buffer exactly |
| StringReplacement.StringReplacer.Replace | blog/src/include/stringUtil.hpp:63-87 | equals the greedy replacement whenever the result's size can be represented |
| StringReplacement.TitlePlaceholder | blog/src/include/post.hpp:109-120 | equals the greedy replacement of one occurrence |
| StringReplacement.ExpandInPlace | methuselah/src/path.cpp:28-38 | the in-place loop equals the unlimited greedy replacement and ends by the length left behind the position |
| StringReplacement.ExpandPath | methuselah/src/path.cpp:19-38 | the expansions of a path, tilde included |
| ArgTableSpec.ParseFits | git-credential-helper/c-project/lib/argtable3.c:305-441 | for all arguments, no entry stores more values than its maximum and the error list stays within its capacity with codes 1 to 5 |
| ArgTableErrors.CountErrors | git-credential-helper/c-project/lib/argtable3.c:432-439 | for all arguments the check appends an error of code 5 for exactly the entries whose count is below their minimum, in table order and as far as there is room, and the argument loop reports no count |
| ArgTableErrors.MissingAreMissing | git-credential-helper/c-project/lib/argtable3.c:432-439 | the entries reported are those and no others, in increasing order |
| ArgTableErrors.ExtraFlagIsSilent | git-credential-helper/c-project/lib/argtable3.c:99-104 | once a flag has reached its minimum, giving it again, however often and whatever follows, changes no error |
| ArgTableErrors.TwiceIsNotReported | git-credential-helper/c-project/lib/argtable3.c:99-115 | a flag with maximum 1 given twice counts 2 and yields no error |
| ArgTableSpellings.ParsingIsApplying | git-credential-helper/c-project/lib/argtable3.c:353-429 | parsing any well-formed vector does what its occurrences mean, in order |
| ArgTableSpellings.SpellingDoesNotMatter | git-credential-helper/c-project/lib/argtable3.c:347-441 | vectors that mean the same give the same counts, values and error list |
| ArgTableSpellings.EveryVectorIsSpelled | git-credential-helper/c-project/lib/argtable3.c:353-429 | every vector is such a spelling, but for a last option whose value is missing |
| ArgTableSpellings.FourSpellings | git-credential-helper/c-project/lib/argtable3.c:358-406 | with distinct letters and names, the four spellings of an option with a value mean the same |
| ArgTableSpellings.FlagSpellings | git-credential-helper/c-project/lib/argtable3.c:365-393 | a flag's letter and name mean the same |
| ArgTableSpellings.BundlesSplit | git-credential-helper/c-project/lib/argtable3.c:381-405 | bundling and splitting short options does not change the meaning |
| ArgTableSpellings.LongMatchIsMember | git-credential-helper/c-project/lib/argtable3.c:26-44 | a name, with or without a value, matches a list exactly when it is a member |
| ArgTableSpec.MatchShort | git-credential-helper/c-project/lib/argtable3.c:326-334 | the first entry with the letter |
| ArgTableSpec.MatchLong | git-credential-helper/c-project/lib/argtable3.c:337-345 | the first entry that matches the text |
| ArgTable.ArgParser.MatchNames | git-credential-helper/c-project/lib/argtable3.c:26-44 | the loop over a comma-separated list |
| ArgTable.ArgParser.ScanValue | git-credential-helper/c-project/lib/argtable3.c:99-200 | the scan functions of the entry kinds |
| ArgTable.ArgParser.ParseLong | git-credential-helper/c-project/lib/argtable3.c:358-378 | a long option |
| ArgTable.ArgParser.ParseShort | git-credential-helper/c-project/lib/argtable3.c:381-407 | the loop over bundled letters |
| ArgTable.ArgParser.ParseBare | git-credential-helper/c-project/lib/argtable3.c:410-428 | the loop that looks for an entry with room |
| ArgTable.ArgParser.CheckCounts | git-credential-helper/c-project/lib/argtable3.c:432-439 | the check loop |
| ArgTable.ArgParser.Parse | git-credential-helper/c-project/lib/argtable3.c:347-441 | the whole parse refines its function |

## Left out

- Logger: null arguments, allocation failure and a failing open; what reaches the disk after a write is accepted, and partial writes.
- Credential store: I/O failures, permissions, the name of the temporary file, listing, and reading and writing the git protocol.
- MMDB reader: the fields of the metadata are parameters. The recursion limit of Python is a parameter of the decoder. Strings are kept as their UTF-8 bytes, which determine them.
- MmdbLayout.DecodeLaid: the payloads of doubles and floats stay the eight or four bytes that `struct` would convert.
- MmdbTheorems.RoundTrip: the same.
- MmdbViewer.Viewer.Decode: the same.
- GPS: counters, commit times and floating-point geometry. Characters are unsigned, and digit strings beyond the range of `long` are not saturated.
- CredentialSpec.SaveThenFind: for a protocol, host, user or password that does not fit a line, the answer is stated by `CredentialSpec.AnySave` in terms of what the written line is read as.
- CredentialSpec.SaveKeepsOtherQueries: the same.
- SMTP: dot transparency, the Date and Message-ID lines, file names and file errors of a saved mail, and the second close that a second QUIT in one read would attempt.
- SmtpSessionClass.SmtpSession.SaveEmail: leaves out the Date and Message-ID lines, the file name and a failing open; a mail is its sender, first recipient and text.
- UUID: the quality of the random tail, which is an arbitrary number, and hashing.
- Handshake: errors returned by the mutex and the condition variable end the program and are not steps. Replies are taken to fit the buffer, and the client to call back once for each accepted request.
- String replacement: an empty needle, which the constructor's assertion excludes, and what the file system does with an expanded path.
- StringReplacement.StringReplacer.Replace: requires the size of the result to be representable, because otherwise the buffer allocated is too small.
- Command-line parser: a table without an end entry, printing, and the conversion of text to numbers, which is a parameter. File entries behave as string entries.
- ArgTableSpellings.SpellingDoesNotMatter: vectors that end in an option without its value are not compared, because their error carries the argument as it was spelled.
- Everything that is mostly calls into libraries: Seastar, io_uring, QUIC, TLS, databases, web front ends.
