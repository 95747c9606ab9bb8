# Verified models of librustyaxe's algorithmic cores

This project models the self-contained algorithms of the library in Dafny and
proves what they are for. Operations that update objects or arrays in place are
classes and methods with loops; each is proved against a specification, and the
results about whole inputs, runs or interleavings are lemmas about that
specification.

| part | files |
|---|---|
| hash dictionary: probing, tombstones, resizing, whole runs | `Probe`, `DictTable`, `Dict`, `DictRuns` |
| merge, clone and diff, and replacing the live configuration | `DictMerge`, `Config` |
| JSON text and numbers, the reading function and the grammar it accepts, flattening and what its keys mean, the reader on a real dictionary, tree printer, round trip | `JsonText`, `JsonStrings`, `JsonNumber`, `JsonSyntax`, `JsonGrammar`, `JsonFlatten`, `JsonSteps`, `JsonParse`, `JsonTree`, `JsonPaths`, `JsonNodes`, `JsonRoundTrip`, `JsonShortest`, `JsonInverse`, `JsonTheorem` |
| event bus: registry and domains for one thread, message tokens under interleaving | `EventBus`, `MessageTokens` |
| CRC-32, SOCKS5 handshake, UTF-8, key-sequence trie | `Crc32`, `Socks`, `Utf8`, `KeyTrie` |
| descriptor remapping, access rules, log rate limit, log queue | `FdRemap`, `Acl`, `RateLimit`, `LogQueue` |

`Bytes` holds the shared option type, bytes and C strings. Strings are sequences
of bytes without NUL; integers are unbounded except where a width decides the
result, where it is written out.

`dafny verify dfyconfig.toml` checks the whole project.

## Where the code differs from its own documentation, or from what one expects

The model follows the code. Each point is a lemma or a method below.

- Deletions can saturate a small dictionary: after six deletions, two more stores
  make every lookup of an absent key run for ever (`DictRuns.Saturate`). Up to
  five deletions are always safe (`DictRuns.RunWithFewDeletes`), and so is any
  number of stores alone (`DictRuns.RunWithoutDeletes`). Any other run is right up
  to the first operation that does not return (`DictRuns.RunUntilStuck`), which is
  one whose key is absent while no Null slot is left (`DictTable.LookupStopsIff`).
- The null that marks a removed key in a diff (dict.c:1757-1760) is ambiguous: reading it as
  a deletion rebuilds the new dictionary exactly when no null of it is new or
  changed (`DictMerge.MarkersRebuildIff`, `DictMerge.DiffNotInjective`).
- A token is documented to identify exactly one listener through its generation
  (event-bus.c:325-331, event-bus.c:1081-1086), but the generation is never looked at: the first
  listener with the same callback and user is dropped
  (`EventBus.OwnListenerDroppedIff`, `EventBus.OtherDispatcherDropped`,
  `EventBus.StaleTokenTakesAnother`). A wildcard removal does not bump the
  generation either.
- A cancellation looks at `active` before it takes the lock. Two threads cancelling
  one token can both go on, and the second drops another token's listener
  (`EventBus.RacingOffTakesAnother`), unless nothing with its callback and user is
  listed (`EventBus.OffLockedHarmlessIff`).
- Subscribing in a domain takes the lock three times. Interrupted, it can leave a
  listener whose domain is gone (`EventBus.InterruptedDomainToken`; the binary form
  takes it twice, with the same gap, `EventBus.InterruptedBinaryToken`) or an empty entry
  (`EventBus.InterruptedLeavesEmpty`). Exactly when is
  `EventBus.InterruptedHostedIff` and `EventBus.InterruptedNoEmptyIff`; with nobody
  after the second section the former comes down to whether the domain is still
  registered then (`EventBus.DomainGoneIff`).
- The last of those sections is said to mark exactly the listener just registered
  (event-bus.c:490). It marks every listener with that callback, user and dispatcher,
  so it touches no other exactly when the earlier ones were all marked before
  (`EventBus.MarksOnlyNewIff`).
- A rate limit looks only at the whole seconds of its clock. In real time no limit
  whose window is a second or more keeps its count (`RateLimit.KeepsCountIff`): an
  interval as long as the window lets up to twice the count through, wherever it
  begins (`RateLimit.WindowBound`), and exactly that for every count
  (`RateLimit.PeakIsAttained`). Counted by readings, in intervals that begin with a
  whole second, it is the count for windows of a second and twice the count less one
  for longer ones (`RateLimit.ReadingBound`, `RateLimit.ReadingsKeepCountIff`).
  That is for keys with a slot. A subsystem name of 128 bytes or more is never
  limited and uses up the slots (`RateLimit.LongNamesFlood`), and a key that finds no
  slot at its first message is never limited either
  (`RateLimit.UntrackedNeverLimited`, `RateLimit.Dichotomy`).
- A mapping from a closed descriptor is accepted exactly when its number is among
  the free descriptors above all targets that its predecessors take
  (`FdRemap.Spawn`, `FdRemap.ClosedSourceAccepted`); below those it never is
  (`FdRemap.LowClosedSourceRefused`).
- A rule for an IPv6 network shorter than 96 bits never matches an IPv4 subject,
  although the subject's mapped address lies in it (`Acl.AllOfIpv6MissesIpv4`).

## Model

| member | source | states |
|---|---|---|
| Probe.ProbeVisitsEverySlot | dict.c:147-177 | for every power-of-two size, 32-bit hash and start slot, the probe visits every slot within size + 7 rounds |
| Probe.PerturbVanishes | dict.c:158 | from round 7 on the shifted perturbation of a 32-bit hash is zero |
| Probe.WrapIsHarmless | dict.c:158-160 | 32-bit wrap-around of the recurrence does not change the slot for any size up to 2^32 |
| Probe.CycleReaches | dict.c:158-160 | `5i + 1` is a full cycle modulo every power of two |
| DictTable.LookupStopsIff | dict.c:132-177 | a lookup terminates if and only if a Null slot exists or the key is present |
| DictTable.LandingMeaning | dict.c:132-177 | where a lookup ends: live exactly for a present key, that key's slot, and reachable by its probes |
| DictTable.LandingUnique | dict.c:132-177 | a lookup has at most one answer |
| DictTable.StoreAt | dict.c:249-281 | writing where the lookup ended updates the map and keeps one live slot per key with no Null before it |
| DictTable.DeleteAt | dict.c:575-596 | a tombstone removes exactly its key and keeps all other keys reachable |
| DictTable.StoreKeepsNullIff | dict.c:259-281 | a Null slot remains after an in-place store exactly when it did not take the last one |
| DictTable.LiveCountIsSize | dict.c:259-281 | the number of live slots is the size of the map |
| DictTable.EmptyTable | dict.c:472-488 | a zeroed table is a valid empty map |
| Dict.Dict.constructor | dict.c:472-488 | eight Null slots, empty map, zero counters |
| Dict.Dict.Lookup | dict.c:132-177 | the probing loop terminates and returns the matching slot, else the first tombstone passed, else the Null slot |
| Dict.Dict.Get | dict.c:533-548 | lookup in the map; an absent key is reported as such |
| Dict.Dict.AddP | dict.c:284-307 | re-insertion of an absent key into a table without tombstones |
| Dict.Dict.Resize | dict.c:407-469 | the map and `used` are kept; the size is left alone exactly when it already exceeds 4 (big tables 2) times `used`, tombstones included; otherwise it grows at most to twice that and every tombstone goes |
| Dict.Dict.Store | dict.c:194-281 | the map is updated; `used` counts new keys; in place exactly one slot changes and `fill` over-counts overwrites; a rebuild drops tombstones; at most one Null slot is used |
| Dict.Dict.Del | dict.c:575-596 | the key is removed, exactly its slot becomes a tombstone, -1 and no change for an absent key |
| Dict.Dict.Enumerate | dict.c:550-573 | the next live slot at or after the rank, -1 exactly when there is none |
| DictRuns.RunWithoutDeletes | dict.c:194-281 | any run of stores under any hash: refines the map, `3 * used < 2 * size`, no tombstone, every lookup terminates |
| DictRuns.RunWithFewDeletes | dict.c:194-281 | any run of stores and deletions with at most five deletions refines the map and no lookup in it or after it is stuck |
| DictRuns.RunUntilStuck | dict.c:194-281 | any run of stores and deletions refines the map up to the first operation whose lookup does not come back, and all of it if there is none |
| DictRuns.Saturate | dict.c:407-417 | six deletions and two stores leave a table in which the lookup of every absent key diverges |
| DictRuns.LastNullNeedsTombstones | dict.c:234-242 | the last Null slot can go only with six tombstones or more |
| DictMerge.DiffRebuilds | dict.c:1761-1808 | the diff has exactly the keys on which the two disagree, is empty exactly for equal maps, and overlaying it and dropping lost keys rebuilds the new map |
| DictMerge.MarkersRebuildIff | dict.c:1757-1808 | reading every null as a deletion rebuilds the new map if and only if no null of it is new or changed |
| DictMerge.DiffNotInjective | dict.c:1761-1808 | two different targets have the same diff |
| DictMerge.Merge | dict.c:1693-1715 | the result is the overlay of the source on the target, also when both are one dictionary |
| DictMerge.Clone | dict.c:1717-1730 | an independent dictionary with the same map, NULL for NULL, never stuck |
| DictMerge.MergeNew | dict.c:1732-1755 | a fresh overlay of both |
| DictMerge.Diff | dict.c:1761-1808 | the two loops build exactly the specified diff and change neither input |
| Config.HasKey | config.c:1428-1441 | presence in the map, a null value included |
| Config.Live.ApplyNew | config.c:1443-1502 | refused exactly for a missing or identical dictionary; otherwise the live object holds the new map, callbacks run once per key of the diff and then once for completion, and added + changed + removed is the size of the diff |
| Config.Live.ReloadEventRun | config.c:1670-1687 | calls exactly the callbacks registered for the key, ignoring case, in order |
| Config.NotifiedAre | config.c:1670-1687 | a notification calls the callbacks of exactly the registrations for completion, or for a key that differs only in the case of ASCII letters, once each, in their order |
| Bytes.SameIgnoringCaseIff | config.c:1670-1687 | two texts are the same ignoring case exactly when they differ only in the case of ASCII letters |
| Config.Live.Announce | config.c:1475-1490 | each key of the diff is notified once and counted in one of the three counters |
| Config.CountedAll | config.c:1475-1490 | the counters are the numbers of new and lost keys and add up to the diff |
| Config.Swap | config.c:1466-1469 | the two dictionary objects exchange contents and keep their identity |
| Utf8.FillUtf8 | termkey.c:805-869 | the buffer holds the encoding and a terminating NUL, the rest is untouched |
| Utf8.ParseUtf8 | termkey.c:872-941 | the loop computes the reference reading |
| Utf8.ParseOfForm | termkey.c:872-941 | every form of a code point below 2^31 is consumed whole; only the shortest form of an accepted code point yields it, all else yields U+FFFD (RFC 3629, section 3) |
| Utf8.ParseYieldsIff | termkey.c:872-941 | a code point comes out if and only if its own encoding leads the buffer and it is not a surrogate, U+FFFE or U+FFFF |
| Utf8.ParseOfPrefix | termkey.c:911-917 | a truncated encoding asks for more input |
| Utf8.ParseOfBroken | termkey.c:872-941 | a byte that cannot lead is invalid on its own, and a form that breaks off is invalid up to the byte that does not continue it |
| JsonText.JsonEscape | json.c:226-295 | the buffer loop writes the reference escaping, which with its terminator fits the allocation |
| JsonText.EscapeFits | json.c:230-232 | escaping takes at most six bytes per byte |
| JsonText.JsonHex4 | json.c:299-322 | four hex digits or failure |
| JsonStrings.HexFourIff | json.c:299-322 | four bytes are read as a value exactly when they are its four hexadecimal digits, each in either case |
| JsonText.JsonUnescape | json.c:324-436 | the loop computes the reference decoding, including every failure, and every write fits the allocation |
| JsonStrings.DecodeIff | json.c:324-436 | decoding accepts exactly the strings of RFC 8259, section 7, as rows of plain characters, short escapes and the UTF-16 units of a code point that is neither NUL nor a surrogate, and yields the UTF-8 of each |
| JsonStrings.EscapeIsShortest | json.c:226-295 | of all texts that decode to a string, escaping writes the shortest |
| JsonText.DecodeFits | json.c:324-436 | decoding never yields more bytes than it reads |
| JsonText.JsonParseStr | json.c:70-98 | the scan and the decoding read one quoted string |
| JsonText.ParseStrOfEscaped | json.c:70-98 | reading an escaped string gives back the string and what follows it, for every C string and every continuation |
| JsonText.WriteUtf8IsEncode | json.c:387-421 | the reader's UTF-8 writer agrees with the terminal driver's |
| JsonText.UnicodeEscapeIsUtf8 | json.c:387-421 | every accepted `\u` escape or surrogate pair is the UTF-8 of a code point that is neither NUL nor a surrogate (RFC 8259, section 7) |
| JsonText.DecodeNulFree | json.c:387-421 | decoding never yields a NUL |
| JsonNumber.JsonIsNumber | json.c:920-965 | the pointer scan accepts exactly the number grammar (RFC 8259, section 6) |
| JsonGrammar.NumberIff | json.c:920-965 | the scan accepts exactly an optional minus, an integer without leading zeros, an optional fraction and an optional exponent (RFC 8259, section 6) |
| JsonNumber.JsonPrimitive | json.c:885-1030 | literal, integer in the narrowest type, other number, or failure |
| JsonGrammar.TokenIff | json.c:885-1030 | a token means null, true, false, an integer in the narrowest of three types by its range, or what the C library makes of another number, and nothing else is accepted |
| JsonNumber.PrimitiveOfDecText | json.c:668-698 | a printed integer reads back as itself in the narrowest type that holds it |
| JsonFlatten.RunMeaning | json.c:863-880 | entering leaves succeeds if and only if no path clashes, and then there is exactly one entry per leaf and nothing overwritten |
| JsonFlatten.FlatTextMeaning | json.c:1035-1057 | a text yields a dictionary if and only if it is grammatical and its paths do not clash; its entries are exactly the leaves |
| JsonGrammar.ReadIff | json.c:863-1057 | a text is read as a tree if and only if it is a text of the grammar that denotes that tree: white space only where RFC 8259 has it, no trailing commas, no member name twice in an object, nested at most 64 deep below the root |
| JsonSteps.KeysAreSteps | json.c:31-57 | the dictionary of an accepted text has an entry for exactly the leaves, each under the key that the steps to it spell: `[n]` in decimal for element n counted from zero, the name after a dot for a member, without the dot at the root and before a bracket |
| JsonFlatten.FlatMembersStep | json.c:114-184 | reading and entering members one at a time is parsing all of them and flattening then |
| JsonParse.JsonParseValue | json.c:863-1033 | the recursive reader on a real dictionary: same success, same rest, same map as the reference, strictly consuming, depth at most 64 |
| JsonParse.JsonParseObj | json.c:114-184 | the object reader, with its own dictionary of member names |
| JsonParse.JsonParseArray | json.c:186-223 | the array reader, as the reference: elements numbered from zero, each index appended to the path in brackets |
| JsonParse.Json2Dict | json.c:1035-1057 | a dictionary exactly for the accepted texts; the text is one of the grammar, and the entries are exactly its leaves under the keys that the steps to them spell |
| JsonTree.DumpJson | json.c:668-698 | the recursive printer writes the reference dump |
| JsonTree.Dict2Json | json.c:713-749 | each entry enters the tree once, in the order of the table's slots, and the tree is dumped; NULL for NULL |
| JsonNodes.GetAfterInsert | json.c:480-604 | an insertion makes exactly the nodes on its way and sets one text |
| JsonNodes.GetOfBuild | json.c:480-604 | the tree has exactly the nodes on the way to some key |
| JsonNodes.NewestFirst | json.c:480-604 | the members of every printed object come newest first, by the first entry, in table order, that goes there |
| JsonPaths.TokensOfJoin | json.c:31-57 | cutting a joined path gives its segments back |
| JsonPaths.JoinOfTokens | json.c:31-57 | a well-shaped key is the join of its segments |
| JsonPaths.KeyPrefixIff | json.c:480-604 | one key followed by a dot leads another exactly when its segments do |
| JsonRoundTrip.ParseOfDump | json.c:668-698 | a dumped tree reads back as itself, or not at all, exactly by its depth |
| JsonShortest.PrintIsShortest | json.c:668-749 | for a dictionary without floating point, of all texts that read as the tree it prints the printed one is the shortest |
| JsonInverse.VisitsAreWalk | json.c:863-1033 | the reader visits the paths of the printed tree |
| JsonTheorem.RoundTripIff | json.c:713-749 | the printed text reads back as the dictionary, each value in normal form, if and only if keys have 1 to 64 non-empty segments, no later one starts with `[`, and no key is a segment-prefix of another |
| JsonTheorem.IdentityIff | json.c:713-749 | the text reads back as the very dictionary if and only if the keys are printable and each value has the type the reader gives its text |
| JsonTheorem.NormalMapIsIdentity | json.c:863-1033 | for strings, booleans, nulls and ints the normal form is the dictionary itself |
| JsonTheorem.PrintAndRead | json.c:1035-1057 | printing and then reading a dictionary object gives its map in normal form if and only if it is printable, and its very map if and only if the values are plain as well |
| Crc32.BuildTable | eeprom.c:614-644 | each entry is eight polynomial steps of its index |
| Crc32.Compute | eeprom.c:614-644 | the byte loop computes the checksum of the reference fold |
| Crc32.CrcConcat | eeprom.c:614-644 | feeding a checksum back in continues it over the concatenation |
| Crc32.ByByteIsSteps | eeprom.c:614-644 | one table look-up is eight bitwise steps |
| Crc32.FoldIsBitFold | eeprom.c:614-644 | the table-driven loop is the bit-by-bit register for every byte string and start |
| Crc32.PolyIsGenerator | eeprom.c:625-632 | the register's constant is the generator polynomial with the powers 32, 26, 23, 22, 16, 12, 11, 10, 8, 7, 5, 4, 2, 1 and 0 (RFC 1952, section 8) |
| Crc32.CrcIsDivision | eeprom.c:614-644 | the checksum is the complemented remainder of polynomial long division by that generator (RFC 1952, section 8) |
| Socks.Session.HandleEvent | socks.c:165-293 | one event: stage, buffer, bytes sent and return code of the machine that the rows below characterise |
| Socks.NegotiateSplit | socks.c:165-293 | reading in two portions is reading both at once |
| Socks.ReadsJoin | socks.c:200-293 | several reads in a row end as one read of all their bytes |
| Socks.FragmentationIrrelevant | socks.c:165-293 | any chunking of a byte stream, with polls before the deadline in between, ends in the same stage, sent bytes and unconsumed buffer |
| Socks.ReadyOnce | socks.c:165-293 | ready is returned at most once, exactly when the stage becomes ready |
| Socks.ReadyIff | socks.c:165-293 | ready if and only if the bytes start with a complete successful handshake; exactly what follows stays in the buffer (RFC 1928, sections 3, 4 and 6; RFC 1929, section 2) |
| Socks.FailsIff | socks.c:200-293 | fed any bytes, the session fails exactly when the whole pieces of them begin no successful handshake, and the packets it has sent are fixed by what has arrived |
| Socks.ProxyReadsConfig | socks.c:131-163 | what a ready session has sent reads as: one method offered, 2 exactly with a user; then user and password if there is a user; then a CONNECT to the configured host and port; and nothing more (RFC 1928, sections 3 to 5; RFC 1929, section 2) |
| Socks.WholeSession | socks.c:165-293 | from the connection on, however the input is cut: ready exactly when it starts with a successful handshake, then having told the proxy the configuration and kept what follows; failed exactly when it can no longer start with one |
| Socks.GivenUpIff | socks.c:165-199 | an unfinished session is given up by an event other than a read exactly when the connection ends or a poll finds the deadline reached |
| Socks.FailedForever | socks.c:122-129 | no series of events leads out of failure: each answers -1 and closes the connection, and nothing is sent or consumed |
| KeyTrie.PeekKey | tui.driver-ti.c:653-705 | the matching loop computes the reference answer |
| KeyTrie.CompressLookup | tui.driver-ti.c:322-362 | each byte leads from a compressed node to the compressed child |
| KeyTrie.CompressPreserves | tui.driver-ti.c:322-362 | compression preserves matching on every buffer |
| KeyTrie.CompressKeepsAnswers | tui.driver-ti.c:322-362 | the driver's key, byte count and waiting are the same before and after compression |
| KeyTrie.InsertCases | tui.driver-ti.c:707-760 | insertion aborts exactly when an earlier sequence is a proper prefix, and changes nothing when the sequence is there or begins another |
| KeyTrie.InsertAdds | tui.driver-ti.c:707-760 | a new sequence is found wherever it leads the buffer, and every other answer stays |
| KeyTrie.LoadAnswers | tui.driver-ti.c:707-760 | loading any list aborts if and only if a sequence goes on beyond an earlier kept one; a sequence is kept unless it is empty, an earlier one again or the beginning of one; the match is exactly the kept sequence that leads the buffer |
| KeyTrie.LoadFinds | tui.driver-ti.c:707-760 | a prefix-free set is kept whole and never aborts the load, so the match is exactly the sequence that leads the buffer |
| KeyTrie.DriverAnswers | tui.driver-ti.c:653-705 | over the compressed trie of any list that loads: the end of input exactly with nothing buffered and the terminal closed, the key whose kept sequence leads the buffer, waiting exactly for a beginning, nothing otherwise |
| FdRemap.Check | subproc.c:63-81 | accepts exactly non-negative sources and distinct non-negative targets below INT_MAX |
| FdRemap.FirstIsLeast | subproc.c:63-81 | duplicates are taken from the least number above 2 and above every target |
| FdRemap.Duplicate | subproc.c:86-94 | each source is copied to the lowest free descriptor above all targets |
| FdRemap.FreeMeaning | subproc.c:86-94 | the descriptors taken are the first free ones above all targets, in ascending order with none left out |
| FdRemap.ChosenAreFree | subproc.c:86-94 | the duplicates are determined by the parent's table |
| FdRemap.Arrange | subproc.c:103-123 | the child's table is the simultaneous assignment of the targets, listed descriptors closed, all others unchanged |
| FdRemap.Spawn | subproc.c:57-157 | the parent's table is restored in every case; a child is made if and only if the mappings are well-formed, fork succeeds, each source is open or among the free descriptors its predecessors take, and those stay below the limit; its table is the simultaneous assignment of the files so given |
| FdRemap.RemappedIff | subproc.c:86-123 | the child's table is the simultaneous move, open sources to open targets and closed to closed, swaps and cycles included, if and only if every source was open |
| FdRemap.LowClosedSourceRefused | subproc.c:86-94 | a closed source not above all targets is refused |
| FdRemap.RoomSuffices | subproc.c:86-97 | with open sources and room above the targets, duplicating never fails |
| FdRemap.SwapSwaps | subproc.c:103-111 | exchanging two descriptors exchanges them and nothing else |
| FdRemap.TargetsSurviveExec | subproc.c:103-132 | after the move every target of an open source survives exec; of the rest, what was inheritable and not listed |
| FdRemap.ClosedSourceAccepted | subproc.c:86-94 | a closed source can be accepted |
| Acl.PassIffSameNetwork | acl.c:174-189 | octet compare and mask decide exactly whether the leading prefix bits agree (RFC 4632, section 3.1) |
| Acl.ParseDigits | acl.c:51-63 | a decimal prefix length or failure, without overflow |
| Acl.NetworkParse | acl.c:37-82 | accepted exactly as the next row says; the stored rule is the same 128-bit network, IPv4 exactly when all of it is mapped |
| Acl.NetworkIff | acl.c:37-82 | a text names every address exactly when it is `all` or `*`, and otherwise a network exactly when it has at most 63 bytes and is an address alone, or an address, a slash and decimal digits whose value fits the address's width |
| Acl.StoredRuleIs | acl.c:64-82 | what is stored, case by case: an IPv4 network as it is; an IPv6 network of 96 bits or more with eighty zero bits and sixteen ones in front as the IPv4 network of its last four octets; any other as it is (RFC 4291, section 2.5.5.2) |
| Acl.SubjectInit | acl.c:145-167 | the stored subject is the same 128-bit address, IPv4 exactly when mapped (RFC 4291, section 2.5.5.2) |
| Acl.StoredSubjectIs | acl.c:145-167 | a subject's address is stored as it is, except that a mapped one becomes the IPv4 address of its last four octets |
| Acl.NormalisingKeepsMatch | acl.c:174-189 | normalised forms match if and only if the 128-bit networks do, except that networks shorter than 96 bits never hold an IPv4 subject |
| Acl.AllOfIpv6MissesIpv4 | acl.c:75-79 | the exception occurs |
| Acl.Check | acl.c:205-219 | the loop answers with the first rule that says anything; a known subject is allowed exactly when the first rule that covers it allows; missing rules or subject are denied |
| Acl.MatchIffCovers | acl.c:168-203 | for a known subject a rule speaks exactly when it covers it: no network or the same one bit by bit, and everybody, this user (ignoring the case of ASCII letters if asked) or a group of this user; it then says what it was written to say |
| Acl.AllowedIff | acl.c:205-219 | a known subject is allowed if and only if some rule covers it, no earlier one does and that rule allows; otherwise it is denied |
| Acl.AnswerIsFinal | acl.c:168-219 | an answer that is not deferred stays the same when an unknown address or identity becomes known |
| Acl.KnownNeverDefers | acl.c:168-219 | a fully known subject is allowed or denied |
| Acl.DeferIsExact | acl.c:168-203 | a rule defers if and only if what is unknown can still make it cover the subject or not, and does not match if and only if no completion is covered |
| Acl.ListDefersIff | acl.c:205-219 | a list defers if and only if an open rule comes before every rule sure to match |
| RateLimit.Limiter.Allowed | logger.c:176-230 | the slot scan and update are the specified step of the table |
| RateLimit.KeyAlone | logger.c:176-230 | among traffic whose names are not cut to the key's, a tracked key is limited as if it were alone |
| RateLimit.KeyAmongAll | logger.c:176-230 | among all traffic a tracked key is limited as if it were alone, from its own window or from one that a longer name, cut to fit, opened before it |
| RateLimit.WindowBound | logger.c:183-229 | any half-open interval of one window's length of real time, to the nanosecond, admits at most twice the count |
| RateLimit.PeakIsAttained | logger.c:183-229 | twice the count is attained for every count and every window of a second or more |
| RateLimit.KeepsCountIff | logger.c:183-229 | no run admits more than the count in a window's length of real time if and only if the window is of zero seconds |
| RateLimit.ReadingBound | logger.c:212-229 | as many consecutive whole-second readings as the window is long admit at most the count for windows of a second or less, else twice the count less one |
| RateLimit.ReadingPeakIsAttained | logger.c:212-229 | that reading peak is attained for every count and every window of a second or more |
| RateLimit.ReadingsKeepCountIff | logger.c:212-229 | by whole-second readings no run admits more than the count if and only if the count is one or the window is at most a second |
| RateLimit.NothingLost | logger.c:212-229 | messages are admitted, reported as skipped or pending, below saturation of the counter |
| RateLimit.TrackedBound | logger.c:176-230 | both bounds, in real time and by readings, hold for a tracked key in every run of the whole table, names that are cut to the key's included |
| RateLimit.TrackedLosesNothing | logger.c:176-230 | the conservation law holds for a tracked key in every run of the whole table, names that are cut to the key's included |
| RateLimit.LongNamesFlood | logger.c:189-210 | among all traffic, names that do not fit are never limited and each message takes a slot while there is one |
| RateLimit.FullTableFailsOpen | logger.c:204-206 | without free slots a key that has none is never limited, whatever else comes, and changes nothing |
| RateLimit.UntrackedNeverLimited | logger.c:189-210 | in any traffic, a key whose name does not fit or that finds no slot at its first message is never limited |
| RateLimit.Dichotomy | logger.c:176-230 | a key with a fixed limit keeps to both peaks if its name fits and it finds a slot, and otherwise nothing of it is withheld |
| LogQueue.Queue.Push | log-queue.c:63-89 | accepted exactly with the lock free and room; the new contents, each field of the record with the texts cut to 63 and 1023 bytes, and each counter |
| LogQueue.Queue.Drain | log-queue.c:90-116 | the oldest records, at most as many as asked for, are logged in order |
| LogQueue.AppendContents | log-queue.c:82-88 | writing at the tail appends, and the ring shape is kept |
| LogQueue.PopContents | log-queue.c:104-107 | moving the head removes the oldest record |
| LogQueue.EveryRun | log-queue.c:63-117 | in every interleaving: delivered, in flight and queued records are the accepted ones in lock order; ring shape; at most one lock holder; contention + full - dropped is the number of producers between their two updates |
| LogQueue.NobodyIsStuck | log-queue.c:63-117 | a producer never waits: under way it has exactly one step, which is possible whoever holds the lock; the drainer waits for the lock and for nothing else |
| LogQueue.AtRest | log-queue.c:63-117 | with nobody under way the counters add up and everything accepted is delivered or queued |
| MessageTokens.EveryRun | event-bus.c:529-626 | in every interleaving `executing` counts the threads inside the callback, subscribed tokens are the active ones, and domains in use stay registered |
| MessageTokens.EmissionReachesActive | event-bus.c:627-676 | in every interleaving an emission adds exactly one delivery for each active token of that name and none for any other, the newest subscriber's first |
| MessageTokens.StaysActiveIff | event-bus.c:1087-1158 | a subscription ends exactly by its own cancellation or the shutdown |
| MessageTokens.SubscribesIff | event-bus.c:529-626 | subscribing adds one active token exactly when the store is open and the domain, if any, is registered |
| MessageTokens.DomainGoesIff | event-bus.c:398-460 | a domain goes exactly by the shutdown, or unregistered while no ordinary listener uses it and no active token delivers in it |
| MessageTokens.DomainComesIff | event-bus.c:368-397 | a domain comes exactly by its registration, with a name, while the store exists, and the store exists from an initialisation to the next shutdown |
| MessageTokens.ReturnsIff | event-bus.c:1087-1173 | a drain returns exactly by its own step, a cancelling call exactly by its own step or at once when its token is inactive |
| MessageTokens.StaysCancelled | event-bus.c:571-599 | once cancelled, a token stays so and no thread enters its callback any more |
| MessageTokens.DrainedStaysQuiet | event-bus.c:1087-1173 | after a cancelling call returned and a later drain returned, no thread is ever inside the callback again |
| MessageTokens.DrainWaitsForCallbacks | event-bus.c:1161-1173 | a drain that has to wait waits for a running callback, and each that finishes brings it closer |
| MessageTokens.OffAloneQuietIff | event-bus.c:1096-1112 | cancelling alone leaves the callback idle exactly when nobody was inside |
| EventBus.Bus.Register | event-bus.c:944-979 | one listener is appended; the text form bumps the generation |
| EventBus.Bus.RegisterToken | event-bus.c:996-1079 | one listener and one active token are added |
| EventBus.Bus.UnregisterToken | event-bus.c:1087-1158 | the first listener with the token's callback and user goes, an empty entry goes with it, the token becomes inactive |
| EventBus.Bus.Unregister | event-bus.c:1461-1552 | the in-place wildcard removal keeps exactly the unselected listeners in order |
| EventBus.Bus.UnregisterDomain | event-bus.c:398-460 | refused exactly for an unknown domain, one that a message listener names (an input here) or one whose dispatcher an ordinary listener uses |
| EventBus.Bus.RegisterDomainToken | event-bus.c:464-506 | the three sections, uninterrupted |
| EventBus.Bus.RegisterBinaryDomainToken | event-bus.c:508-527 | the two sections of the binary form, uninterrupted |
| EventBus.Bus.Emit | event-bus.c:1226-1359 | the event's text listeners in order, or those of NOMATCH when it has none, as the store's entries hold them |
| EventBus.Bus.EmitBinary | event-bus.c:1362-1437 | the event's binary listeners in order; there is no NOMATCH for them |
| EventBus.ListenersAreRegistrations | event-bus.c:944-1158 | in every sequential run, for every event, callback and user, listeners are active tokens plus tokenless registrations |
| EventBus.EmissionReaches | event-bus.c:1226-1359 | in every sequential run an emission calls a callback and user once for each of its active tokens and tokenless registrations for the event; an event for which nobody is registered calls so those registered for NOMATCH |
| EventBus.NewestIsCalledLast | event-bus.c:944-1079 | a new text listener is the last one its event's next emission calls; a new one for NOMATCH is called last for every event without listeners; other events call whom they did before |
| EventBus.OffKeeps | event-bus.c:1461-1552 | a wildcard removal keeps exactly the listeners of the event with another callback or another user than given, and every other event and lane |
| EventBus.DomainRegistersIff | event-bus.c:368-397 | a domain is added, in front, exactly to an open registry, with a dispatcher and a non-empty name that no other domain has |
| EventBus.DomainUnregistersIff | event-bus.c:398-460 | a domain goes exactly when there is one of that name, no message listener names it (an input here) and no listener of either kind uses its dispatcher |
| EventBus.CancelledForGood | event-bus.c:1087-1158 | a cancelled token is never active again over any calls, and cancelling it at any later time changes nothing |
| EventBus.OffTokenTwice | event-bus.c:1087-1158 | of two cancellations of a token, however far apart, only the first does anything |
| EventBus.EmissionOrder | event-bus.c:880-893 | in every sequential run, wildcard removal, shutdown and initialisation included, listeners are called in order of registration and no empty entry stays |
| EventBus.OwnListenerDroppedIff | event-bus.c:1136-1145 | a token's own listener goes if and only if no earlier one has its callback and user |
| EventBus.OtherDispatcherDropped | event-bus.c:1136-1145 | cancelling one of two tokens can drop the other's listener |
| EventBus.OffLockedHarmlessIff | event-bus.c:1114-1155 | the locked part of a cancellation leaves the list alone exactly when nothing listed has the token's callback and user, whether the token is still active or not |
| EventBus.StaleTokenHarmlessIff | event-bus.c:1114-1155 | an active token leaves the list alone exactly when nothing listed has its callback and user |
| EventBus.StaleTokenTakesAnother | event-bus.c:1461-1503 | a token outlived by a wildcard removal can take another token's listener |
| EventBus.RacingOffTakesAnother | event-bus.c:1090-1094 | two racing cancellations of one token drop another token's listener |
| EventBus.MarkKeepsNoEmptyIff | event-bus.c:490-503 | the marking section leaves no empty entry exactly when there was none and the event still has its entry |
| EventBus.MarkHostedIff | event-bus.c:490-503 | after the marking section every marked listener has a domain if and only if that was so before and the dispatcher's domain is registered or nobody is left to mark |
| EventBus.MarksOnlyNewIff | event-bus.c:490-503 | the marking section marks the new listener, and no other exactly when every earlier one with its callback, user and dispatcher was marked before |
| EventBus.DomainsStay | event-bus.c:398-506 | in every sequential run, wildcard removal, shutdown and initialisation included, a domain stays registered while a marked listener uses it |
| EventBus.WholeHostedIff | event-bus.c:464-506 | an uninterrupted domain registration leaves every marked listener with a domain exactly when that was so before |
| EventBus.InterruptedDomainToken | event-bus.c:464-506 | with the domain unregistered between lookup and registration, the listener is left without it |
| EventBus.InterruptedLeavesEmpty | event-bus.c:464-506 | with the new listener removed by callback and user between registration and marking, an empty entry is left |
| EventBus.InterruptedHostedIff | event-bus.c:464-506 | with any sections of other threads in between, late cancellations included, every marked listener has a domain afterwards if and only if the guard of the marking section holds before it |
| EventBus.InterruptedNoEmptyIff | event-bus.c:464-506 | with any sections of other threads in between, late cancellations included, no empty entry stays if and only if the others left none and the event still has its entry |
| EventBus.DomainGoneIff | event-bus.c:464-506 | with others only before the second section: exactly when the domain is still registered at the second section |
| EventBus.DomainKeptIff | event-bus.c:464-506 | with others between all sections that neither register the same listener again nor restore the domain: exactly when the domain is still registered at the second section or the listener is removed before the third |
| EventBus.BinaryDomainGoneIff | event-bus.c:508-527 | with any sections of other threads in between, the listener that the binary form leaves has its domain if and only if that is still registered at the second section |
| EventBus.BinaryWholeHasDomain | event-bus.c:508-527 | uninterrupted, the binary form leaves a listener whose domain is registered |
| EventBus.UsedDomainStays | event-bus.c:415-453 | while any listener, text or binary, uses a dispatcher, no section but shutdown takes its domain away |
| EventBus.InterruptedBinaryToken | event-bus.c:508-527 | with the domain unregistered in between, the binary listener is left without it |

## Left out

- Operating-system, terminal and network effects, file parsing and saving, UI drawing, module loading, process waiting and signals.
- Allocation failure and the release of memory: allocation succeeds.
- The hash function itself (murmur): every function from keys to 32-bit values is covered.
- Unsigned overflow of `size`, `used` and `fill`, of the queue's 64-bit counters, of generations, of `executing` and of the 32-bit index of an array element: they are natural numbers.
- Floating point: payloads are exact reals without NaN or signed zero, and the C library's printing and reading of them are parameters. The JSON round trip is stated for values without floating point.
- Integer widths are those of an LP64 system.
- Dict.Dict.Store: like lookup and delete it requires that its lookup terminates, which is exactly the condition of `DictTable.LookupStopsIff`; outside it the program does not return.
- DictMerge.Merge: requires Null slots enough for the new keys, or no tombstone in the target, for the same reason; diff and configuration replacement ask the same of their inputs.
- DictRuns.RunWithFewDeletes: counts deletions from the creation of the dictionary; a rebuild on the way only helps, and `DictRuns.RunUntilStuck` has no such bound.
- Config.Live.ApplyNew: the callbacks are taken not to touch the configuration, and both dictionaries use one hash function, as all of the program's do. Logging and freeing are not part of it.
- JsonNodes.GetAfterInsert: the node tree is a value; linking child nodes in place and the growing output buffer's capacity are not modelled.
- `json_parse_and_flatten` and the variable-argument builders, which only wrap what is here.
- KeyTrie.InsertCases: insertion is a function on trie values rather than writes into child arrays; reading terminfo and decoding mouse reports are not modelled.
- Socks.Session.HandleEvent: the parsing of the proxy URL and of literal addresses is taken as done, and sends succeed.
- FdRemap.Spawn: the process handle's own fields, exec, the process group and the scheduling profile are not modelled; whether fork succeeds is a parameter.
- Acl.NetworkParse: reading a textual address (inet_pton) is a parameter, and the selector syntax around it (acl.c:83-143) is not modelled.
- RateLimit.TrackedBound: a clock that does not go back, one fixed limit for the key, and a table as the program leaves it: names that fit and slots taken in order. The runs contain no reset: replacing the filters empties the table (logger.c:301), and every key then starts anew.
- LogQueue.EveryRun: memory ordering of the atomic counters is sequential; one drainer, as the header demands.
- MessageTokens.EveryRun: memory is never freed under a token; dispatchers run every accepted message eventually or never, in any order.
- EventBus.ListenersAreRegistrations: sequential runs only, because `active` is read before the lock is taken; wildcard removal and shutdown are not part of these runs, since they remove listeners and leave their tokens active. The other runs have them.
- EventBus.Bus.Register: the event store is a map, so its dictionary lookups are taken to come back. By `DictRuns.Saturate`, registering and removing six events can break that for the program.
- EventBus.Bus.UnregisterDomain: the message listeners are in `MessageTokens`, so that one of them names the domain is an input; `MessageTokens` in turn takes the use by ordinary listeners as an input.
- Profiling counters, the payload and the connection pointer of an emission.
- Filters by pattern in the logger, and its output.
