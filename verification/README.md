# HTTP Message Signatures: a verified model

The repository implements HTTP Message Signatures (RFC 9421) and digest fields
(RFC 9530) for Go's `net/http`. This project models its core in Dafny and proves
what it promises: that a signature base has one meaning, that a replay store that
cleans up lazily answers like one that cleans up at once, that text and binary
values keep their meaning when they are canonicalized, that trailers are signed
over exactly the bytes that were sent, and that what a signer emits is accepted
inside stated windows of time, at most once, and that what is accepted was signed.

Loops and objects of the Go code are methods and classes; each is proved against
a specification function or relation, and the properties are proved about those.

| file | what it holds |
|---|---|
| `Basics.dfy` | strings, octets, bounded runs of characters |
| `Utf8.dfy`, `FormCodec.dfy` | UTF-8 repair, the form codec and lookup behind `@query-param` |
| `Base64.dfy`, `BinaryNormalizer.dfy`, `Whitespace.dfy` | base64, the byte-sequence normalizer, the tab rewriting before parsing |
| `StructuredFields.dfy` | the serializer of section 4.1 of RFC 8941 and its unique decodability |
| `DictionaryScanner.dfy` | the raw dictionary scanner and the duplicate-label check |
| `Identifiers.dfy`, `SizeLimits.dfy` | identifiers, comparison keys, saturating size accounting |
| `ComponentValues.dfy`, `Budgets.dfy`, `SignatureBase.dfy` | resolution of covered components, its byte budgets, the signature base |
| `ReplayStore.dfy`, `ReplayProtocol.dfy` | the replay store, its refinement, its concurrent callers |
| `StreamingBody.dfy`, `StreamingProtocol.dfy` | the trailer-signing request body, its interleavings with closers and the round trip |
| `ResponseWriter.dfy`, `BoundedRead.dfy` | the trailer-signing response writer, reading a body up to a limit |
| `Labels.dfy`, `Profiles.dfy`, `Verification.dfy` | labels of the two fields, profiles and times, `Sign` and `Verify` |

Conventions. A Go string is a sequence of bytes: a `string` with one `char` per
byte where the code handles text, a `seq<byte>` where it handles octets. `int` is
64 bits wide; saturation and truncation are written out. A `time.Time` is the
number of nanoseconds since Go's zero time, so that `IsZero` is comparison with 0;
durations are nanoseconds. Readings of the replay store's clock also carry the
monotonic part that `time.Now` gives them. What `net/http`, `net/url`, the
structured field parser, resolvers, clocks, contexts and cryptographic primitives
return are parameters, without any assumption on them unless a lemma states it.

Three findings about the code.

- The comment at message.go:164-165 says that every resolver returns a value
  within its budget. `Budgets.BudgetExact` says for which components that holds in
  every message: for all but `@status`, fields read through `sf` or `key`, and the
  parts of a request; `Budgets.PartExact` says that a part keeps to its budgets
  exactly when it is no longer than what was measured for it. The bare member `a`
  under `key` (`Budgets.MemberCanExceedBudget`), the list `a,b` under `sf`
  (`Budgets.ListCanExceedBudget`), the status (`Budgets.StatusCanExceedBudget`) and
  the path of the received target `/a"b`, which is escaped to `/a%22b`
  (`Budgets.PathCanExceedBudget`), exceed theirs. The remaining budget then goes
  negative, which is always refused later (`SignatureBase.NegativeBudget`), so the
  limit on the base still holds (`SignatureBase.OutputBound`).
- The replay store clamps its clock with `time.Time.Before`, which compares the
  monotonic readings of `time.Now`, and compares expirations by wall time. After
  the wall clock is set back, a record that had expired and was dropped can be
  accepted a second time (`ReplayModel.SetBackReplays`, `ReplayModel.TwiceExactly`). Nothing
  else breaks the promise: two acceptances of one record imply that the wall time
  of the store was set back across its expiration (`ReplayProtocol.AtMostOnce`),
  which never happens with a clock whose wall time is not set back
  (`ReplayProtocol.CoherentNeverCrossed`). The same condition decides the
  refinement by the simple store (`ReplayModel.RefinesExactly`).
- Truncation to seconds can put `created` before the start of a signing key that
  begins within a second. Verification then refuses a fresh signature for ever,
  unless the skew is at least that fraction of a second (`Profiles.SkewExact`,
  `Profiles.TruncatedRefused`).

`matchingLabelSets` can decide by counting and one inclusion because the parsers
and `CombineSignedFields` refuse repeated labels; `Labels.MatchingExactly` says
when it would decide rightly without that.

## Model

| member | source | states |
|---|---|---|
| Utf8.DecodeWithReplacement | message.go:1375-1415 | on every byte string the loop gives what the byte-at-a-time UTF-8 decoder of the WHATWG Encoding Standard gives |
| Utf8.Whole | message.go:1403-1406 | a complete sequence is decoded and re-encoded to the same bytes |
| Utf8.Truncated | message.go:1389-1409 | a maximal subpart that breaks off is replaced once and the decoder resumes at the offending byte |
| Utf8.RepairedWellFormed | message.go:1375-1415 | the repaired text always follows the UTF-8 grammar of section 4 of RFC 3629 |
| Utf8.RepairIdentity | message.go:1375-1415 | repair changes nothing exactly when the input is well formed |
| Utf8.RepairIdempotent | message.go:1375-1415 | repairing twice is repairing once |
| Utf8.RepairedLength | message.go:1375-1415 | repaired text is at most three times as long |
| FormCodec.DecodeFormComponent | message.go:1349-1373 | percent escapes and plus signs are decoded, stray percent signs kept, and the octets repaired as UTF-8 |
| FormCodec.FormPercentEncode | message.go:1451-1466 | unreserved octets stand for themselves, every other octet becomes an upper-case escape |
| FormCodec.PercentRoundTrip | message.go:1349-1373 | percent decoding undoes percent encoding on all octets |
| FormCodec.PercentEncodeInjective | message.go:1451-1466 | different octet strings have different encodings |
| FormCodec.FormRoundTrip | message.go:1349-1466 | decoding an encoded value gives it back exactly when it is well-formed UTF-8 |
| FormCodec.CanonicalForm | message.go:1349-1466 | encode after decode keeps what a raw value decodes to and is idempotent |
| FormCodec.CanonicalSame | message.go:1349-1466 | two raw values share the canonical form exactly when they decode alike |
| FormCodec.CanonicalLength | message.go:1349-1466 | a canonical value is at most nine times as long as the raw one, and three times for ASCII |
| FormCodec.QueryParameter | message.go:1317-1347 | the loop finds the value exactly when a single field carries the name, under both size checks |
| FormCodec.MatchesRendered | message.go:1326-1339 | in a form rendered from any octets the loop matches exactly the values of the name, in order, names and values as the decoder repairs them |
| FormCodec.LookupRendered | message.go:1317-1347 | looking up a name in a form rendered from any octets gives its encoded, repaired value exactly when it occurs once |
| FormCodec.AsciiLimit | message.go:1317-1347 | on ASCII queries the check against a third of the budget alone bounds the value |
| FormCodec.SingleField | message.go:1317-1347 | a query of one field is looked up by its canonical name and value |
| FormCodec.NonAsciiNeedsFinalCheck | message.go:1343-1345 | a non-ASCII query passes the first check and is refused only by the final one |
| Base64.RawRoundTrip | structured_field_safe.go:113-115 | unpadded base64 decoding undoes encoding |
| Base64.RoundTrip | structured_field_safe.go:113-115 | padded base64 decoding undoes encoding |
| Base64.TrimEncoded | structured_field_safe.go:111-115 | trimming the padding of an encoding leaves the unpadded encoding |
| Base64.EncodedSize | message_limits.go:203-206 | an encoding has four characters for every started group of three octets |
| BinaryNormalizer.Replacement | structured_field_safe.go:110-116 | a byte sequence is replaced exactly when its canonical text differs from it |
| BinaryNormalizer.NormalizeBinaryValue | structured_field_safe.go:84-135 | the scanner with its quote, escape, boundary and segment state renders the scanned pieces with every byte sequence canonical |
| BinaryNormalizer.CanonFaithful | structured_field_safe.go:110-119 | a rewritten byte sequence decodes to the same octets |
| BinaryNormalizer.CanonDecodable | structured_field_safe.go:110-119 | strict padded decoding of the rewritten text gives the octets exactly where the original decodes without surplus padding; surplus padding is left for it to judge |
| BinaryNormalizer.ScanRender | structured_field_safe.go:84-135 | scanning loses nothing: the pieces of a text render to the text |
| BinaryNormalizer.Resynchronizes | structured_field_safe.go:84-135 | scanning the normalized text finds the same pieces, byte sequences canonical |
| BinaryNormalizer.NormalizeIdempotent | structured_field_safe.go:84-135 | normalizing twice is normalizing once |
| BinaryNormalizer.NormalizeFaithful | structured_field_safe.go:84-135 | strings and all text outside byte sequences are unchanged, and every byte sequence keeps its octets |
| Whitespace.TrimmedEndsInComma | signature_fields.go:631-633 | the trimmed text before an index ends in a comma exactly when only blanks separate it from one |
| Whitespace.TrimmedStartsWithComma | signature_fields.go:632-633 | the same for the trimmed text after an index |
| Whitespace.RewriteInPlace | signature_fields.go:626-636 | the in-place loop, reading bytes it has changed, makes a tab a space exactly when only blanks separate it from a comma |
| Whitespace.RewriteIdempotent | signature_fields.go:623-640 | rewriting twice is rewriting once |
| Whitespace.RewriteEarly | signature_fields.go:623-640 | rewriting some affected tabs in advance does not change the result |
| Whitespace.RewriteThenCombine | structured_field_safe.go:41-56 | rewriting lines before they are combined does not change what rewriting afterwards gives |
| StructuredFields.BareUnique | message.go:1260-1267 | a serialized bare item is told apart from whatever may follow it and determines its value |
| StructuredFields.ParametersUnique | message.go:1247-1258 | serialized parameters determine the parameters in order |
| StructuredFields.ItemUnique | message.go:1243-1245 | a serialized item determines value and parameters |
| StructuredFields.ListUnique | message.go:1224-1241 | a serialized inner list determines its items and parameters, although items hold quotes, spaces and parentheses |
| DictionaryScanner.SplitDictionaryMembers | signature_fields.go:509-555 | the loop over quote, escape and depth state yields the members a recursive scan defines, or fails with it |
| DictionaryScanner.DictionaryMemberKey | signature_fields.go:557-572 | the label is the key that starts the member after blanks, or empty |
| DictionaryScanner.RejectDuplicateDictionaryKeys | signature_fields.go:488-507 | accepts exactly when the joined lines split and all labels are present and distinct |
| DictionaryScanner.PrinterAgrees | signature_fields.go:509-572 | splitting a serialized dictionary gives exactly its members in order with their labels, whatever their strings hold |
| DictionaryScanner.PrintedAccepted | signature_fields.go:488-507 | a serialized dictionary passes exactly when its labels are distinct |
| DictionaryScanner.JoinsAgree | signature_fields.go:488-507 | joining lines with a comma or, as for the parser, a comma and a space gives the same error status and the same labels in order, even where a line ends inside a string or inner list |
| Identifiers.InputTextUnique | message.go:1294-1312 | serialized signature parameters determine the covered items and the parameters in order |
| Identifiers.ComponentTextUnique | message.go:1282-1292 | two identifiers serialize alike exactly when names and parameters, after repeated names are merged, are equal |
| Identifiers.MergeDistinct | signature_fields.go:389-400 | merging keeps parameters with distinct names as they are |
| Identifiers.SortedSorts | signature_fields.go:590-594 | the stable sort yields a permutation ordered by name |
| Identifiers.KeyCanonical | signature_fields.go:590-594 | with distinct parameter names and any sort by name: a key exists exactly when the identifier serializes, and keys are equal exactly when names are equal and parameters are permutations |
| Identifiers.ComparisonKeyCanonical | signature_fields.go:590-594 | the same for the key as the base and the profiles compute it |
| SizeLimits.EscapedStringLength | message_limits.go:158-166 | the count is the length of the escaped text, capped at MaxInt |
| SizeLimits.Base64LengthExact | message_limits.go:203-206 | the saturating formula is the length of the encoding, capped at MaxInt |
| SizeLimits.ParameterUpperBound | message_limits.go:47-76 | the saturating sum is the exact size of one parameter, capped at MaxInt |
| SizeLimits.StructuredItemUpperBound | message_limits.go:15-23 | the loop's saturating sum is the exact size of name and parameters, capped at MaxInt |
| SizeLimits.ItemSizeExact | message_limits.go:15-23 | that size bounds the serialized identifier and equals its length exactly when no parameter name repeats |
| SizeLimits.MergeSize | message_limits.go:15-23 | merging repeated names only shortens, and keeps the size exactly when names are distinct |
| SizeLimits.ConsumeSize | message_limits.go:208-214 | a size is taken from the budget exactly when it is not negative and fits |
| SizeLimits.SignatureParametersFit | message_limits.go:25-45 | holds exactly when the accounted size is within the budget |
| SizeLimits.InputSizeExact | message_limits.go:25-45 | the accounted size bounds the serialized inner list, and is its length exactly when no parameter name repeats |
| SizeLimits.FieldValuesFit | message_limits.go:78-96 | for every budget holds exactly when the sizes Go shows for the values, wrapped or not, and their separators are within it; below MaxInt these are the true sizes |
| SizeLimits.MeasureTarget | message_limits.go:107-126 | the saturating sums are the exact size of the target, or of the bound on the one to be built, capped at MaxInt |
| SizeLimits.DerivedSourceFits | message_limits.go:98-156 | the check holds exactly when, at a budget from 0 up, scheme, authority and target, the whole target URI, and three times the target of a query parameter are within it |
| SizeLimits.FitsMore | message_limits.go:98-156 | what fits a budget fits every larger one, from 0 up |
| SizeLimits.FitsBelowZero | message_limits.go:99-101 | below 0 the check passes, although at 0 it fails for every request with a URL |
| ComponentValues.ComponentParameterSet | message.go:218-259 | the loop reads the flags of a component or fails on an unknown, mistyped or conflicting parameter |
| ComponentValues.NormalizeLines | message.go:374-393 | every field line is normalized, or wrapped as a byte sequence, or the field fails |
| ComponentValues.ResolveField | message.go:363-416 | checks, normalization and the bs, key, sf and plain paths in the code's order, with its errors |
| ComponentValues.ResolveDerived | message.go:261-325 | parameter rules, request, method token and size, source check, each part of the request, query parameter lookup and status range, in the code's order |
| ComponentValues.ResolveComponent | message.go:190-205 | derived names go to the message, others to the fields, `@signature-params` fails |
| ComponentValues.MarshalMemberText | message.go:1269-1280 | serializing a member inside a dictionary and cutting it out gives its own canonical text |
| ComponentValues.PreparedTwice | message.go:1172-1196 | rewriting tabs before the parser entry, which does it again, changes nothing |
| Budgets.ResolvedFits | message.go:163-166 | every component but the status and fields read through sf or key resolves within its budget, the parts of a request if they are no longer than what was measured for them |
| Budgets.PartExact | message.go:276-308 | a part of a request respects every budget exactly when it is no longer than what was measured for it |
| Budgets.BudgetExact | message.go:163-166 | a component resolves within every budget in every message exactly when it is neither the status, nor a field read through sf or key, nor a part of a request; where parts are no longer than their sources, exactly when it is neither of the first two |
| Budgets.MemberCanExceedBudget | message.go:395-405 | the bare member a read by key resolves to two bytes under a budget of one |
| Budgets.ListCanExceedBudget | message.go:407-413 | the list a,b read through sf resolves to four bytes under a budget of three |
| Budgets.StatusCanExceedBudget | message.go:313-320 | the status resolves to three digits under any budget |
| Budgets.PathCanExceedBudget | message.go:1065-1069 | the path of the received target /a"b resolves to six bytes under a budget of four |
| SignatureBase.CoverComponent | message.go:129-173 | one iteration: size check, identifier, duplicate check, framing cost, value, derived-value check, in that order |
| SignatureBase.CreateSignatureBase | message.go:111-188 | the loop with its builder, budget and seen set yields the base of section 2.5 of RFC 9421 or the code's error |
| SignatureBase.CoverAllLines | message.go:128-174 | one newline-free line per component, in order, each with the component's serialized identifier |
| SignatureBase.OutputBound | message.go:118-188 | a returned base is never longer than the effective limit |
| SignatureBase.NegativeBudget | message.go:166-180 | once a value has driven the budget negative, the result is the limit error |
| SignatureBase.ResolveMore | message.go:190-205 | what resolves under a budget resolves to the same under every larger one |
| SignatureBase.LargerLimit | message.go:118-127 | the limit only refuses: a returned base is the same under every larger limit |
| SignatureBase.BaseAlike | message.go:111-188 | two messages with equal limits that resolve the covered components alike, errors included, have one base or fail alike |
| SignatureBase.BaseTransfers | message.go:111-188 | the base of one message is the base of every message that resolves to the same what the first resolves, under budgets and a limit no smaller |
| SignatureBase.UncoveredFields | message.go:327-416 | messages that differ only in fields not covered, or in their limits, resolve the covered components alike |
| SignatureBase.ReceivedReads | message.go:261-416 | a message with the same parts, method, status and covered lines, whose request sources measure no larger, resolves a component to what was sent |
| SignatureBase.MessageReceived | message.go:261-416 | the same for all covered components |
| SignatureBase.ServerSources | message_limits.go:102-131 | the sources of a request in origin form measure no larger at the server than at the client that sent it |
| SignatureBase.BareClean | message.go:1260-1267 | no serialized value holds a newline |
| SignatureBase.LinesUnique | message.go:168-173 | newline-free framed lines followed by a parameter line are read back uniquely |
| SignatureBase.BaseInjective | message.go:111-188 | two bases are equal exactly when covered items, signature parameters and every resolved value are equal, in order |
| SignatureBase.BaseDetermines | message.go:111-188 | without repeated parameter names one base determines components, parameters and values |
| SignatureBase.CoveredOnce | message.go:137-141 | no two covered identifiers differ by at most the order of their parameters |
| ReplayModel.SetsBackExactly | replay.go:234-238 | the adopted reading is never before the last; it sets the wall time back exactly when both are monotonic, in order, and the wall clock was set back between them |
| ReplayModel.CapacityLive | replay.go:254-256 | capacity is refused only when every retained record is live, and is never exceeded, whatever the clock does |
| ReplayModel.StepRefines | replay.go:234-265 | one call on the store that drops at most one expired record answers like the store that purges all of them, unless it sets the wall time back |
| ReplayModel.RefinesExactly | replay.go:234-265 | it answers so, whatever both retain, exactly when the reading does not set the wall time back |
| ReplayModel.RunRefines | replay.go:205-265 | for every sequence of records and clock readings that never sets the wall time back the two stores give the same answers |
| ReplayModel.CoherentRun | replay.go:234-238 | readings of a clock whose wall time is not set back never set the store's back |
| ReplayModel.TwiceExactly | replay.go:234-265 | with another call between, one record is accepted twice exactly when the wall clock reached its expiration by that call and was set back before it afterwards |
| ReplayModel.SetBackReplays | replay.go:234-265 | a record expiring at 100 is accepted at wall time 50, dropped at 101, and accepted again with the wall clock back at 50 |
| ReplayModel.DropMakesRoom | replay.go:274-280 | dropping the oldest expired record leaves a full store full only of live records |
| ReplayModel.DecisionRefines | replay.go:245-264 | deciding on what the drop left agrees with deciding on live records only |
| ReplayStore.SiftUp | replay.go:165-169 | exchanging a too early entry with its parent moves the single heap violation up |
| ReplayStore.SiftDown | replay.go:171-178 | exchanging a too late entry with its earlier child moves the single heap violation down |
| ReplayStore.RootFirst | replay.go:155-157 | the root of an ordered heap is an earliest entry |
| ReplayStore.MemoryReplayStore.Swap | replay.go:159-163 | two slots and their stored indexes are exchanged |
| ReplayStore.MemoryReplayStore.Up | replay.go:165-169 | sifting up restores heap order and indexes |
| ReplayStore.MemoryReplayStore.Down | replay.go:171-178 | sifting down restores heap order and indexes below a prefix and reports whether it moved |
| ReplayStore.MemoryReplayStore.Fix | replay.go:250-251 | after an entry's expiry changed in place, heap order and indexes are restored |
| ReplayStore.MemoryReplayStore.Push | replay.go:165-169 | a new entry joins an ordered, indexed heap |
| ReplayStore.MemoryReplayStore.Pop | replay.go:171-178 | the root leaves; order and indexes hold for the rest |
| ReplayStore.NewMemoryReplayStore | replay.go:182-197 | an empty store at the zero time exactly for positive bounds and a clock |
| ReplayStore.MemoryReplayStore.RootOldest | replay.go:274-280 | the root of the heap is an oldest retained record |
| ReplayStore.MemoryReplayStore.DropRoot | replay.go:278-279 | the root leaves heap and map together |
| ReplayStore.MemoryReplayStore.RemoveOldestExpired | replay.go:274-280 | drops exactly one oldest record if it has expired, otherwise nothing |
| ReplayStore.MemoryReplayStore.Renew | replay.go:246-252 | an expired record takes the new expiry in place; heap, indexes and map stay consistent |
| ReplayStore.MemoryReplayStore.Insert | replay.go:258-262 | a new record enters map and heap within capacity |
| ReplayStore.MemoryReplayStore.Decide | replay.go:245-264 | replayed, renewed in place, at capacity or inserted, as the retained records say |
| ReplayStore.MemoryReplayStore.DropAndDecide | replay.go:243-264 | at most one expired record is dropped before the decision |
| ReplayStore.MemoryReplayStore.ConsumeLocked | replay.go:234-264 | the critical section is one step of the lazy store and keeps heap order, indexes, the bijection and capacity |
| ReplayStore.MemoryReplayStore.Consume | replay.go:205-265 | a cancelled or malformed call changes nothing; any other is one step of the lazy store |
| ReplayProtocol.StepKeepsInv | replay.go:99-143 | every step of every caller keeps the mutex, log and store invariants |
| ReplayProtocol.RunKeepsInv | replay.go:99-143 | they hold in every reachable state |
| ReplayProtocol.MutexHolds | replay.go:99-143 | channel tokens plus lock holders is always one, and no unlock finds the token already there |
| ReplayProtocol.TimeNeverBackward | replay.go:234-238 | in no interleaving is a reading adopted that is before the one it replaces |
| ReplayProtocol.WallNeverBackward | replay.go:234-238 | nor does the wall time of the store fall, when the callers' wall clock is not set back |
| ReplayProtocol.CoherentNeverCrossed | replay.go:234-238 | with such a clock the wall time of the store never falls across an expiration |
| ReplayProtocol.AtMostOnce | replay.go:205-265 | two accepted calls for one key and nonce carry different expiries, in any interleaving with cancellations, unless the wall time of the store was set back across that expiry |
| ReplayProtocol.LiveRecordRefuses | replay.go:245-252 | a key and nonce are accepted again only after the earlier record has expired, unless the wall time was set back across that expiry |
| StreamingBody.Feed | body_integration.go:484-487 | one chunk is written to every digest |
| StreamingBody.TrailerSigningBody.constructor | body_integration.go:346-357 | nothing hashed, nothing latched, one fresh writer for every algorithm |
| StreamingBody.TrailerSigningBody.CompleteLocked | body_integration.go:549-558 | the first result is latched and the open channel closed; later calls change nothing, so a closed channel is never closed again |
| StreamingBody.TrailerSigningBody.AdmitChunk | body_integration.go:466-503 | the locked section after the wrapped read: terminal, too large, no progress, failed, more or end, with the bytes hashed in each case |
| StreamingBody.TrailerSigningBody.Read | body_integration.go:445-512 | an undisturbed read goes through context, wrapped read, admission and finalizer as specified |
| StreamingBody.TrailerSigningBody.Close | body_integration.go:514-526 | closing before the end, or a failing close, completes with an error; otherwise nothing changes |
| StreamingBody.TrailerSigningBody.Completion | body_integration.go:528-535 | the channel is made once |
| StreamingProtocol.ReadKeepsBytes | body_integration.go:445-512 | every reader step keeps hashed bytes equal to delivered and pending ones, within the limit |
| StreamingProtocol.ReadKeepsFinish | body_integration.go:493-512 | every reader step keeps the order of end, finalizer and completion |
| StreamingProtocol.CloseKeeps | body_integration.go:514-526 | every closer step, between any two reader steps, keeps the invariant |
| StreamingProtocol.RoundTripKeeps | body_integration.go:394-415 | every step of the waiting round trip keeps the invariant |
| StreamingProtocol.RunKeeps | body_integration.go:445-558 | the invariant holds after every interleaving of one reader, any number of closers and the round trip |
| StreamingProtocol.RunLatches | body_integration.go:549-558 | a terminal result, the bytes hashed by then, an observed end and the round trip's decision are never changed |
| StreamingProtocol.AlwaysBounded | body_integration.go:445-558 | in every interleaving hashed bytes are the delivered ones and at most maxBytes, and finalizer, channel close and body close happen at most once |
| StreamingProtocol.ReleaseSafe | body_integration.go:394-415 | a response is released only after one successful finalizer call on the digests of exactly the delivered bytes, which are the whole body |
| StreamingProtocol.ReleaseExactly | body_integration.go:404-415 | the select releases exactly when the body has completed without error by then |
| StreamingProtocol.FailureFinal | body_integration.go:404-415 | once the body failed, a response not yet released never is |
| StreamingProtocol.UninterruptedRead | body_integration.go:445-512 | the method Read is the run of its own steps, with the same fields and bytes delivered |
| StreamingProtocol.UndisturbedReleases | body_integration.go:394-512 | a body within the limit that nothing disturbs is delivered whole and its response released |
| ResponseWriter.TrailerResponseWriter.constructor | body_integration.go:721-728 | no status, no failure, nothing hashed, nothing sent |
| ResponseWriter.TrailerResponseWriter.WriteHeaderNow | body_integration.go:858-911 | switching protocols, CONNECT success, bodiless statuses and bad headers latch their failure; informational statuses pass; the first final status is kept |
| ResponseWriter.TrailerResponseWriter.WriteContent | body_integration.go:920-950 | implicit commit, size check, delegation, hashing of the accepted bytes and latching of short, failed or impossible writes |
| ResponseWriter.TrailerResponseWriter.FlushNow | body_integration.go:820-836 | a flush commits first, an unsupported flush is no failure, a failed one is latched |
| ResponseWriter.TrailerResponseWriter.RejectProtocolBypass | body_integration.go:840-856 | hijacking and full duplex latch a failure unless one is latched |
| ResponseWriter.StepKeeps | body_integration.go:820-950 | every operation keeps the invariant between status, calls below, hashed bytes and limit |
| ResponseWriter.StepLatches | body_integration.go:820-950 | status and failure are written at most once, and after a failure an operation changes nothing |
| ResponseWriter.RunKeeps | body_integration.go:820-950 | both hold over every sequence of operations |
| ResponseWriter.DigestCoversBody | body_integration.go:858-950 | over every sequence one final header goes below before any body byte, hashed bytes are the accepted ones within the limit, and without failure they are all the handler wrote |
| ResponseWriter.FailureSilences | body_integration.go:820-950 | after a failure nothing reaches the wrapped writer |
| ResponseWriter.SignedDigests | body_integration.go:729-784 | trailers are signed exactly when nothing failed and the later header, trailer and signing checks pass, and only over the digests of exactly the bytes written and accepted; an error response replaces the stream only while nothing is committed |
| BoundedRead.ReadBounded | body_integration.go:216-240 | the loop ends for every reader, because each round consumes allowance or stops |
| BoundedRead.ReadBoundedAndClose | body_integration.go:202-241 | a body is closed exactly once on every path and content is returned only with a clean close |
| BoundedRead.BoundedExact | body_integration.go:202-241 | content is returned exactly when it is the concatenation of all chunks to the end of the body, within the limit, context alive and close clean |
| BoundedRead.TooLong | body_integration.go:224-227 | a body that ends beyond the limit is refused as too large |
| Labels.MatchingLabelSets | verifier.go:531-546 | the loops decide equal counts and inclusion of signature labels in input labels |
| Labels.MatchingExact | verifier.go:531-546 | with unique labels that is equality of the label sets |
| Labels.MatchingExactly | verifier.go:531-546 | the code decides equality of the label sets exactly when, should either test accept, both fields repeat equally many labels |
| Labels.UnequalRepeatsMatch | verifier.go:531-546 | two signatures of one label would match inputs of two labels |
| Labels.SelectSignature | verifier.go:516-529 | the first input and the first signature with the label, if both exist |
| Labels.SelectedOnly | verifier.go:516-529 | with unique labels the selected pair is the only one of its label |
| Labels.CombineSignedFields | signer.go:228-251 | succeeds exactly on a nonempty list of complete pairs with distinct valid labels, and keeps their order |
| Labels.AppendSignedFields | http_integration.go:806-822 | the map and the loop pair every input with its signature and combine them with the new pair |
| Labels.AppendsExactly | http_integration.go:806-822 | on received fields appending succeeds exactly when the new pair is complete and its label is new |
| Labels.AppendKeeps | http_integration.go:806-822 | received inputs keep their order, the new pair comes last, every received label keeps its signature bytes |
| Labels.AppendReceived | http_integration.go:806-822 | the result can be received and appended to again |
| Profiles.CheckCoverage | verifier.go:411-427 | coverage passes exactly when every identifier has a key and every required key is covered |
| Profiles.ValidateInput | verifier.go:409-496 | coverage, time, algorithm, key identifier, nonce and tag checks in the code's order, with its failure categories and metadata |
| Profiles.MetadataFixed | verifier.go:409-496 | acceptance at two times yields the same metadata: the replay record depends on profile and input only |
| Profiles.RetentionExact | verifier.go:428-457 | an accepted nonce has a replay expiry, and the clock has passed it exactly when age and skew together are the largest duration and the age is beyond it |
| Profiles.RetentionLapses | verifier.go:428-457 | an input created at the Unix epoch, read under the largest age a nanosecond beyond it, is accepted with its replay expiry passed |
| Profiles.BuildParameters | signer.go:314-329 | the conditional appends emit exactly the policy's parameters in order |
| Profiles.SignedTimes | signer.go:314-317 | truncation to seconds keeps expires minus created equal to the lifetime |
| Profiles.SignedAccepted | verifier.go:409-496 | what a compatible signer emits passes exactly inside the created, age, expires and skew windows, with the signer's metadata |
| Profiles.EndExact | verifier.go:434-457 | the replay expiry is the earlier of expiration and age limit, skew included |
| Profiles.KeyAccepted | verifier.go:498-514 | the key checks pass exactly inside the validity and freshness windows, if the truncated creation time is not before the skewed start |
| Profiles.SkewExact | verifier.go:498-504 | every moment of signing survives truncation exactly when the skew covers the fraction of a second of the key's start |
| Profiles.TruncatedRefused | verifier.go:498-504 | a creation time truncated to before the skewed start is refused at every clock reading |
| Verification.Sign | signer.go:271-350 | context, policy, provider, key, base and primitive in order, each with its error; a success carries the base's signature over exactly the emitted input |
| Verification.Judge | verifier.go:328-378 | selection, policy, input, base, key and primitive in order, each with its failure category |
| Verification.Verify | verifier.go:321-398 | a failure before the replay stage, or no nonce, leaves the store as it was; otherwise the store takes one step for the record of the signed input |
| Verification.SignThenVerify | signer.go:271-340 | with compatible profiles, a matching key and a correct primitive, whatever Sign emits reaches the replay stage, on any received message that resolves what was covered to the same, exactly inside its windows |
| Verification.VerifiedWasSigned | verifier.go:346-378 | against a primitive that accepts only bases signed with its key, whatever reaches the replay stage was signed, with the key resolved for its keyid, over the same components, parameters and resolved values |
| Verification.RecordFixed | verifier.go:380-386 | calls with the same signature parameters present the same replay record, whatever their messages, labels and clocks |
| Verification.VerifiesOnce | verifier.go:380-395 | of all concurrent calls with the same signature parameters at most one has its record accepted, unless the wall time of the store was set back across the replay expiry |

## Left out

- Cryptographic primitives, key material checks and hash functions: arguments; `Verification.SignThenVerify` assumes only that verifying accepts what signing made, `Verification.VerifiedWasSigned` that it accepts nothing else. A digest is represented by the bytes fed to it, and the sorting of digests by algorithm before signing is not modelled.
- `requestParts` and `normalizeAuthority`: dominated by net/url; a request comes with the parts that were made of it and the sizes of their sources.
- The transport tables of message.go:418-885 and the cookie rules of message.go:346-362: case tables about net/http; the message supplies the field lines that pass them.
- The structured field parser and its panic containment: the parser is a function of the message. Only its input, the serializer and the raw scanners are modelled.
- Floating point decimals and `restoreRFC8941IntegralDecimals`: decimals are thousandths.
- `digest.go`, `digest_preference.go`, `syntax_limits.go` and the accept-signature fields: parsing and computing Content-Digest for SHA-256 and SHA-512, choosing among them by preference weights, bounds on the size of received fields, and requests for signatures.
- Request and response adapters other than the modelled ones, callbacks, snapshots, error wrapping and redaction, `compatibility/adapter.go`: plumbing around net/http. The header checks of the response writer and its committed header map are an outcome given with each operation.
- A status outside 100 to 999 given to the response writer: net/http panics on it.
- Profile construction beyond the checks named in `Profiles.ValidProfile` and `Profiles.ValidSigningProfile`, which the operations rely on: supported algorithm names, callbacks and timeouts.
- Monotonic readings other than those of the replay store's clock: an expiration or a key window made with `time.Now` would carry one; here they are wall times, as `time.Unix` makes them.
- Real time: a context that ends, a late resolver or store is a flag beside the call. `time.Unix` and `time.Add` do not wrap in the model; structured field integers are too small to make them.
- Verification.SignThenVerify: the received field is taken to hold the emitted input; that a parser reads it back from its text is not part of this model.
- Verification.Verify: one call at a time over the store; concurrent calls are ReplayProtocol and Verification.VerifiesOnce, whose critical section is the relation that ReplayStore.MemoryReplayStore.ConsumeLocked implements.
- StreamingBody.TrailerSigningBody.Read: the sections run without interruption, which StreamingProtocol.UninterruptedRead shows to be one run of the protocol; all other runs are StreamingProtocol's.
- SizeLimits.InputSizeExact: exact only without repeated parameter names, which is exactly when the code's accounting is exact; with repeated names it is an upper bound.
- SignatureBase.OutputBound: with a limit of MaxInt the bound is on the length as a Go `int` shows it.
- Identifiers.ComparisonKeyCanonical: for repeated parameter names the library's sort is not stable and the key depends on it; the statement is for distinct names, which the parsers and profiles admit.
- StreamingProtocol.ReleaseSafe: a transport that fails or returns no response releases nothing and is not a step; a round trip that only waits stands for it.
- BoundedRead.ReadBoundedAndClose: each call of the reader returns; a blocked read is not modelled.
