# WireGuard for Windows: a verified model of its algorithms

This project models the parts of WireGuard for Windows (with the WireRoute manager protocol) that are algorithms rather
than calls into Windows, and proves what they are for. `dafny verify dfyconfig.toml` checks all of it.

| area | modules |
|---|---|
| the wg-quick language: parser, printer, comments, what a text means | `ConfParser`, `ConfReader`, `ConfMeaning`, `ConfWriter`, `ConfCanonical`, `ConfParsed`, `ConfRoundTrip`, `ConfLayout`, `Config`, `Deduplicate` |
| names: validity, order, allocation | `TunnelName`, `NaturalSort`, `ManagerNames` |
| the in-memory loader: relocation, page protection | `Relocation`, `RelocationTable`, `ThumbMov`, `SectionRanges`, `SectionAccess` |
| canonical encodings: GUID stream, driver configuration | `DeterministicGuid`, `GuidStream`, `Sorting`, `DriverConfig`, `DriverLayout`, `Records` |
| the fetcher and the updater | `Signify`, `HexHash`, `FileList`, `Versions`, `CInt` |
| the ring logger | `RingLogger`, `GlobalWrite` |
| the manager protocol: frames and sessions | `ManagerFrames`, `ManagerSession` |
| the driver-adapter cache, as interleaved steps | `DriverAdapters` |
| routes: the weak-host warning, the kill switch | `Pitfalls`, `KillSwitch` |
| shared | `Bytes`, `Base64`, `Text`, `Netip`, `NetipModel`, `Pow`, `Wrappers` |

How to read it. Code that works by changing things is a method or a class, proved equal to a specification function; the
theorems are lemmas about that function. The main specifications are also pinned by descriptions of the result that do not
use them: the meaning of a text by its lines (`ConfMeaning`), a relocation table by its entries (`RelocationTable`), page
protections by what they allow (`SectionAccess`), buffers and streams by their bytes (`DriverLayout`, `GuidStream`).

What the code calls and does not define is a parameter: the text form of addresses (`Netip`, with the laws the library
documents; `NetipModel.LawfulExists` shows that they can be met), Unicode normalisation, curve25519, ed25519, JSON, clocks,
the two interface lookups, the outcome of opening an adapter and of each write. Strings are sequences of code points.
Integers are unbounded, and a width is written out where it matters.

Four places where the code does less than one would hope, each with the exact condition:

* `extract_newest_file` lets a later line with a bad hash and no smaller version overwrite the hash of the file it names
  (`FileList.PickedHash`, `FileList.SpoiledExample`).
* The GUID stream depends on an unspecified order when two peers share a key but not their allowed IPs
  (`DeterministicGuid.DeterminedIff`).
* The weak-host warning depends on the order of the routing table for the tables that `Pitfalls.OrderMattersIff`
  describes, and for no others.
* A poll of the ring logger misses lines when 2048 or more were written since the last one, and a line stamped zero holds up
  those after it; with fewer lines, all stamped, it misses none (`RingLogger.PollCompleteIff`, `RingLogger.HeldUp`).

## Model

| member | source | states |
|---|---|---|
| ConfReader.FromWgQuick | conf/parser.go:160-403 | the loop over lines, with its comment bookkeeping and final checks, computes the specification `Parse`; it accepts exactly the texts whose lines are good where they stand, with a private key and public keys, and the result says, field by field and peer by peer, what the lines say; the error of a refused text is that of its first bad line |
| ConfMeaning.ParseMeans | conf/parser.go:160-403 | the same about `Parse`: lists are the items of all their lines in order, any other field has the value of its last line or its default, peers are added at every title after them and at the end |
| ConfMeaning.ParseFails | conf/parser.go:160-403 | which error a refused text gives: the name's, else that of the first bad line by its kind, else the missing key's |
| ConfMeaning.ScanIs | conf/parser.go:170-225 | titles and keys are known in any case of their letters, code ends at the first hash sign, and a hook takes the rest of the line |
| ConfMeaning.CommentIs | conf/parser.go:171-175 | a comment begins at the first hash sign and ends before trailing blanks, tabs and carriage returns |
| ConfMeaning.PrefixIff | conf/parser.go:30-40 | an item is the prefix it spells, or a lone address with full length and no zone, or no prefix |
| ConfMeaning.EndpointIff | conf/parser.go:42-73 | an endpoint is accepted if and only if it is a host, a colon and a port up to 65535; a host with colons or brackets must be an IPv6 address in brackets |
| ConfMeaning.KeepaliveTaken | conf/parser.go:97-109 | a keepalive is `off`, which is 0, or a number up to 65535 |
| ConfMeaning.TableTaken | conf/parser.go:111-119 | a table is `off`, `auto`, `main` or a number below 2^32; only `off` is off |
| ConfReader.ReadLine | conf/parser.go:170-352 | one line, whatever it is, changes the running configuration as one step of the specification |
| ConfReader.NoteComments | conf/parser.go:225-244 | afterwards the key holds its old comment lines followed by the waiting ones and both suffixes on one line; it is present if it was or if there is something to hold; the other keys and the header are untouched |
| ConfReader.PruneComments | conf/parser.go:353-371 | the in-place pruning of blank lines computes the pruned run |
| ConfReader.PruneSectionComments | conf/parser.go:372-386 | pruning every key of a section, in any order of the map, deletes exactly the keys left without comments |
| ConfCanonical.PruneTight | conf/parser.go:353-371 | a pruned run has no two blank lines in a row, none where they are dropped, and is never a single blank line |
| ConfCanonical.PruneSectionIdempotent | conf/parser.go:372-390 | pruning a section twice is pruning it once, so peers that share their maps are pruned safely |
| ConfParsed.ParsedIsCanonical | conf/parser.go:160-403 | whatever the parser accepts is canonical: valid name, prefixes and addresses, an IPv6 host exactly where a host has a colon, clean tight comments, comments only on printed keys |
| ConfWriter.ToWgQuick | conf/writer.go:19-98 | the builder's text is the specified printing, line by line |
| ConfWriter.Builder.WriteLine | conf/writer.go:22-33 | appends the comments of a line, the line and its suffix, and nothing else |
| ConfWriter.Builder.WriteField | conf/writer.go:34-41 | writes a field with its comments if it is present, nothing otherwise |
| ConfRoundTrip.CanonicalRoundTrip | conf/parser.go:160-403 | printing a canonical configuration and parsing it gives an equal one |
| ConfRoundTrip.ParsePrintParse | conf/writer.go:19-98 | for every accepted text, printing the result and parsing again under the same name gives an equal configuration, comments included |
| ConfRoundTrip.FormatIdempotent | conf/writer.go:19-98 | formatting an accepted text twice is formatting it once |
| ConfRoundTrip.RoundTripIffCanonical | conf/parser.go:160-403 | a configuration survives print and parse if and only if it is canonical, a condition on its fields and comments one by one |
| ConfLayout.PrintedLayout | conf/writer.go:22-98 | a printed accepted text is not empty, does not begin with a blank line and has no two blank lines in a row |
| TunnelName.ValidIff | conf/name.go:14-48 | a name is valid if and only if it has 1 to 32 letters, digits or `_=+.-`, no dot at either end, and names no device before its first dot |
| TunnelName.ReservedIff | conf/name.go:14-37 | reserved are CON, PRN, AUX, NUL, and COM or LPT with a digit from 1 to 9, in any case and with any extension |
| TunnelName.EqualFoldIff | conf/name.go:29-37 | texts are equal but for case if and only if they are so letter by letter |
| Base64.DecodeEncode | conf/config.go:124-126 | decoding the encoding of any bytes gives the bytes back |
| Deduplicate.Compact | conf/config.go:216-258 | the in-place compaction leaves the elements whose text did not occur before |
| Deduplicate.FirstOnesDistinct | conf/config.go:216-258 | afterwards no text occurs twice |
| Deduplicate.TextsStay | conf/config.go:216-258 | no text is lost |
| Deduplicate.Twice | conf/config.go:216-258 | doing it again changes nothing |
| NaturalSort.TunnelNameIsLess | conf/name.go:93-110 | the token loop with its early exits decides the lexicographic order of token lists |
| NaturalSort.RunsPartition | conf/name.go:61-76 | the digit and non-digit runs concatenate to the text and alternate in kind |
| NaturalSort.RunsMaximal | conf/name.go:61-76 | any alternating cut of a text is the list of its runs, so the tokens are the maximal ones |
| NaturalSort.StrictWeakOrder | conf/name.go:93-110 | on all texts the order is irreflexive, asymmetric, transitive and negatively transitive, and two names tie if and only if their token lists are equal |
| NaturalSort.SmallerNumberFirst | conf/name.go:78-91 | of names that begin alike up to a number, the one with the smaller number comes first, whatever follows |
| NaturalSort.SmallerWordFirst | conf/name.go:78-91 | of names that part in words, the first difference of the lower-case words decides |
| NaturalSort.NumberBeforeWord | conf/name.go:78-91 | a name that begins with a number comes before one that begins with a word |
| NaturalSort.ShorterFirst | conf/name.go:93-110 | a name comes before those that go on after it with another run |
| NaturalSort.NormalizeSpaced | conf/name.go:63-67 | white space counts as one space between words, and not at all at the ends |
| NaturalSort.StringLessIff | conf/name.go:78-91 | words are compared at their first difference |
| ManagerNames.AvailableName | manager/protocol_v1.go:474-533 | a result is valid and clashes with no existing name in any case; it is the base if that is free and otherwise the candidate of the least free number from 2 on; no name fails to be derived; a conflict is reported if and only if the base and all candidates are taken; fewer than 99998 existing names always succeed |
| ManagerNames.BaseIsValid | manager/protocol_v1.go:474-503 | the derived base of any display name is a valid tunnel name, so the error exit is unreachable |
| ManagerNames.ValidNameKept | manager/protocol_v1.go:474-495 | a valid tunnel name without a dash at either end is taken as it is |
| ManagerNames.SpacedBase | manager/protocol_v1.go:475-489 | the name of several words is their spelling with one dash between them, whatever white space and punctuation was there, if that can be a name |
| ManagerNames.NothingKept | manager/protocol_v1.go:489-495 | a display name without any character of a name gives `WireRoute` |
| ManagerNames.ReservedBase | manager/protocol_v1.go:496-501 | a reserved name is put behind `WireRoute-` |
| ManagerNames.CutIs | manager/protocol_v1.go:489-492 | a longer text is cut to 32 characters, and back to its last one that is neither dot nor dash |
| ManagerNames.CandidateShape | manager/protocol_v1.go:522-527 | a candidate is the base, cut to what leaves room and back to its last character that is neither dot nor dash, a dash and the number |
| ManagerNames.CandidateIsValid | manager/protocol_v1.go:521-530 | every numbered candidate of a valid base is a valid name |
| ManagerNames.CandidatesDiffer | manager/protocol_v1.go:521-530 | two candidates that are equal but for case have the same number |
| ManagerNames.SomeCandidateIsFree | manager/protocol_v1.go:509-532 | fewer than 99998 names cannot take all candidates |
| Relocation.PerformBaseRelocation | driver/memmod/memmod_windows.go:246-330 | the walk over the table, patching the image while it reads, leaves the image and the answer that the table asks for as first read |
| Relocation.RelocateReads | driver/memmod/memmod_windows.go:246-330 | nothing is read but the directory and the sites it lists: images that agree there get the same answer and stay alike wherever they were alike |
| Relocation.SamePlan | driver/memmod/memmod_windows.go:255-272 | what the table asks for depends on the bytes of the directory only |
| Relocation.WordsMoved | driver/memmod/memmod_windows.go:265-290 | with disjoint sites of words and halves of words, delta or its share is added to each modulo its width and no other byte changes |
| RelocationTable.TableFound | driver/memmod/memmod_windows.go:252-328 | the walk over blocks of entries, as the format lays them out, finds exactly the places page + offset that they name, in order, and ends as the bytes after them say |
| RelocationTable.TableOf | driver/memmod/memmod_windows.go:252-328 | the bytes of any directory are blocks followed by an end |
| RelocationTable.RelocateWords | driver/memmod/memmod_windows.go:246-330 | by a table of words at separate places, each 64-bit and 32-bit word at page + offset grows by delta, a low or high half by that half of delta, and all other bytes stay |
| RelocationTable.RelocateUpTo | driver/memmod/memmod_windows.go:246-330 | by any table of separate places, each is patched from its bytes as they were, up to the first that cannot be, and nothing else changes; that place, or else the end of the table, decides the answer |
| RelocationTable.WhyPatchFails | driver/memmod/memmod_windows.go:274-325 | words never fail, a pair of instructions when it says so, any unknown kind always |
| Relocation.RelocateTwice | driver/memmod/memmod_windows.go:246-330 | relocating words and low halves by d1 and then by d2 is relocating them by d1 + d2 |
| Relocation.HighTwiceIff | driver/memmod/memmod_windows.go:281-283 | for a high half on its own that holds if and only if the low halves of d1 and d2 have no carry |
| Relocation.PatchFrame | driver/memmod/memmod_windows.go:274-325 | patching any kind of site changes no byte outside it |
| Relocation.PairMoved | driver/memmod/memmod_windows.go:291-320 | a relocated instruction pair in memory holds the old value plus delta, with opcodes, registers and all other bytes untouched |
| ThumbMov.PatchedValue | driver/memmod/memmod_windows.go:291-320 | a patched pair holds the 32-bit sum by halves, and its fixed bits are unchanged |
| ThumbMov.PatchFails | driver/memmod/memmod_windows.go:309-317 | for a well-formed pair patching fails if and only if the sum overflows 32 bits, and then the second word is untouched |
| ThumbMov.SecondWord | driver/memmod/memmod_windows.go:291-317 | which error occurs when, what is written by then, and that the second word is looked at only if its half must change |
| ThumbMov.MovwIs | driver/memmod/memmod_windows.go:292-297 | the fields are those of the MOVW encoding of the ARM architecture, the immediate being imm4:i:imm3:imm8 |
| ThumbMov.MovtIs | driver/memmod/memmod_windows.go:305-310 | likewise for MOVT |
| ThumbMov.MovwOnly | driver/memmod/memmod_windows.go:295-310 | no other word passes for one of the two |
| ThumbMov.ScatterGather | driver/memmod/memmod_windows.go:295-300 | an immediate scattered into the fields is gathered again, and no opcode or register bit moves |
| ThumbMov.GatherScatter | driver/memmod/memmod_windows.go:295-300 | an instruction is its fixed bits and its immediate |
| SectionRanges.FinalizeSections | driver/memmod/memmod_windows.go:180-224 | for sections in any order the loop, its 64-bit sums included, makes exactly the system calls of the specified ranges, in order, up to the first refusal, and resizes the headers |
| SectionRanges.RealSectionSize | driver/memmod/memmod_windows.go:104-116 | the size of a section is its own, or else that of the data it stands for |
| SectionRanges.AllPiecesPartition | driver/memmod/memmod_windows.go:180-224 | the ranges are hulls of consecutive groups of sections that share pages, separated by page boundaries; each has the union of its members' flags and is discardable only if all of them are |
| SectionRanges.PagesApart | driver/memmod/memmod_windows.go:199-214 | no page holds bytes of two ranges |
| SectionRanges.SectionCovered | driver/memmod/memmod_windows.go:195-214 | every section lies in a range that has all its access flags |
| SectionRanges.OnlyDiscardableDecommitted | driver/memmod/memmod_windows.go:126-142 | a range given back to the system has discardable sections only |
| SectionAccess.ProtectionMatches | driver/memmod/memmod_windows.go:143-153 | the constant asked for lets a program write, execute and read exactly as the flags say; writing without reading is writing to a copy |
| SectionAccess.GrantedAsAsked | driver/memmod/memmod_windows.go:126-166 | when nothing is refused, every section that stays and has bytes lies in a protected range that grants what its own flags ask |
| SectionAccess.OnlyWarranted | driver/memmod/memmod_windows.go:126-166 | write, execute, read and no-cache are set only if a section in the range asks for it |
| SectionAccess.PageMates | driver/memmod/memmod_windows.go:199-214 | a page that a call is about holds no byte of a section outside the range of the call |
| SectionAccess.GivenBack | driver/memmod/memmod_windows.go:131-140 | a range of discardable sections that covers whole pages, or is the last, is given back |
| SectionAccess.SuccessIff | driver/memmod/memmod_windows.go:180-224 | finalizing succeeds if and only if no protection is refused; a refused one is the last call |
| SectionRanges.AlignDownIsMask | driver/memmod/memmod_windows.go:726-728 | for an alignment that is a power of two, rounding down is the code's mask |
| DeterministicGuid.DeterministicGuid | tunnel/deterministicguid.go:48-100 | the hash is fed one of the streams that sorting allows; the program panics if and only if a length needs more than 32 bits |
| DeterministicGuid.StreamsEqualIff | tunnel/deterministicguid.go:25-46 | for consistent peers two tunnels have equal streams if and only if they have the same name, public key, peer keys and allowed-IP multisets |
| DeterministicGuid.IdentityGivesStream | tunnel/deterministicguid.go:72-97 | the stream does not depend on the order of peers or allowed IPs, nor on the sorting algorithm |
| DeterministicGuid.RearrangingKeepsStream | tunnel/deterministicguid.go:72-97 | with distinct peer keys the stream does not change when allowed IPs and peers are rearranged |
| DeterministicGuid.StreamGivesIdentity | tunnel/deterministicguid.go:25-46 | a stream can be read back: equal streams come from tunnels of the same identity |
| DeterministicGuid.DeterminedIff | tunnel/deterministicguid.go:75-78 | the stream of a tunnel is determined if and only if peers that share a key have the same allowed IPs |
| DeterministicGuid.KindsApart | tunnel/deterministicguid.go:19-22 | the two labels keep the two kinds of stream apart |
| DeterministicGuid.FixedIff | tunnel/deterministicguid.go:70-72 | streams of the fixed kind are equal if and only if the normalised names are |
| GuidStream.StreamReads | tunnel/deterministicguid.go:25-46 | a reader written from the documented layout recovers from every stream the name, the public key, and the peers in the order of their keys with the notations of their allowed IPs |
| GuidStream.KeysAsNumbers | tunnel/deterministicguid.go:78-80 | the order of keys is that of the numbers they are, most significant byte first |
| GuidStream.WrittenInOrder | tunnel/deterministicguid.go:84-93 | allowed IPs stand by family, then by length, then by address |
| Sorting.OrderedUnique | tunnel/deterministicguid.go:76-90 | without ties, what the library promises of a sort determines its result |
| DriverConfig.ToDriverConfiguration | conf/writer.go:100-146 | builds the specified buffer, whose length is the preallocation, in one allocation if that fits in 32 bits |
| DriverConfig.ConfigBuilder.Append | driver/configuration_windows.go:165-181 | appends exactly the given bytes, and moves the buffer only when they do not fit |
| DriverConfig.FromDriverConfiguration | conf/parser.go:422-487 | the pointer walk reads the specified configuration from any buffer that holds the records its counts announce, unknown address families giving invalid prefixes |
| DriverLayout.BuiltLayout | conf/writer.go:100-146 | which bytes stand at which offset of a built buffer: flags, keys, ports, endpoints, families and counts |
| DriverLayout.WalkReads | conf/parser.go:422-487 | what the walk makes of the bytes of any buffer that holds what it announces, flag by flag |
| DriverLayout.SockaddrIs | tunnel/winipcfg/types.go:754-789 | the bytes of a socket address: family, port and address in network order, scope |
| DriverConfig.RoundTrip | conf/parser.go:422-487 | the walk over a built buffer stays inside it and recovers all keys, ports, keepalives and allowed IPs, and the endpoints that are addresses |
| DriverConfig.RoundTripIff | conf/parser.go:422-487 | a configuration comes back unchanged if and only if it has no comments and every endpoint is absent or the canonical text of an address without zone or with a positive decimal one below 2^32 |
| DriverConfig.KeptIff | conf/writer.go:121-128 | an endpoint comes back unchanged if and only if it is absent or the canonical text of an address whose zone is kept |
| DriverConfig.SockaddrBack | tunnel/winipcfg/types.go:754-818 | a socket address gives its address and port back, and of the zone what its scope number keeps |
| DriverConfig.ScopedKeptIff | tunnel/winipcfg/types.go:770-805 | a zone survives if and only if it is empty or a positive decimal number below 2^32 without leading zeros |
| DriverConfig.PeerBack | driver/configuration_windows.go:46-60 | a peer record laid out by its fields is read back field by field at the offsets used |
| Signify.SignifyPubkeyFromBase64 | installer/fetcher/filelist.c:29-44 | accepts a text if and only if it is the encoding of some 42 bytes, and re-encoding the result gives the text |
| Signify.SignifySignatureFromBase64 | installer/fetcher/filelist.c:46-68 | accepts a text if and only if it is the encoding of some 74 bytes, padding bits included, and re-encoding the result gives the text |
| Signify.CharValueIs | installer/fetcher/filelist.c:14-27 | the masked sum of differences is the value of the symbol, or -1 for any other character |
| Signify.FoldedIs | installer/fetcher/filelist.c:14-27 | four symbols give their 24 bits; any other character makes the whole negative |
| HexHash.HashFromHex | installer/fetcher/filelist.c:70-96 | accepts a text if and only if it is 64 hexadecimal digits; the result written in hexadecimal is the text in lower case |
| HexHash.DigitIs | installer/fetcher/filelist.c:75-86 | for each of the 256 bytes the masks give the value of the digit and a clear flag, or a set flag |
| Versions.ParseVersionLoop | installer/fetcher/filelist.c:98-118 | the loop over components computes the specified packing, with its early exits, for any text |
| Versions.StrtoulIs | installer/fetcher/filelist.c:108 | what reading a number does with white space, a sign, too large a number and a negative one |
| Versions.ParseVersionPacks | installer/fetcher/filelist.c:98-118 | a version of one to four numbers below 2^16 is packed sixteen bits a number |
| Versions.VersionNewerThanUs | updater/versions.go:17-50 | the loop computes the lazy comparison with its errors |
| Versions.ComparisonIsOrder | updater/versions.go:17-50 | on numeric versions of any length it is the lexicographic order with missing parts zero |
| Versions.FetcherAgreesWithUpdater | installer/fetcher/filelist.c:98-118 | on versions of one to four numbers below 2^16 the packed order is the updater's |
| FileList.ExtractNewestFile | installer/fetcher/filelist.c:120-168 | only lines under a verified signature of the right key are looked at; file and hash are those that the loop over lines picks |
| FileList.ListedIff | installer/fetcher/filelist.c:152-157 | a line counts if and only if it is 64 characters, two spaces, the prefix, a version and `.msi`, the file name being short enough |
| FileList.EntryListed | installer/fetcher/filelist.c:152-164 | hash, file name and version of such a line |
| FileList.PickedHash | installer/fetcher/filelist.c:148-167 | the file is the last of the good lines of greatest version; the hash is of the same line if and only if no later line with a bad hash has no smaller version, and otherwise that of the last such line |
| FileList.AllGoodMatches | installer/fetcher/filelist.c:148-167 | when every listed hash is hexadecimal, file and hash are of the same line |
| FileList.SpoiledExample | installer/fetcher/filelist.c:158-162 | a list of two lines whose first is named with the hash of the second |
| RingLogger.Ringlogger.WriteWithTimestamp | ringlogger/ringlogger.go:113-152 | a text that is not blank becomes the newest line, cut to fit its slot; blank texts and read-only logs change nothing |
| RingLogger.Ringlogger.WriteTo | ringlogger/ringlogger.go:154-177 | prints the entries from the next slot on, one line each, until the output fails, and counts the bytes taken; for ordinary writers these are the last min(k, 2048) lines, oldest first |
| RingLogger.Ringlogger.FollowFromCursor | ringlogger/ringlogger.go:186-222 | the reader's loop computes the specified delivery and next cursor |
| RingLogger.FittingIsLongest | ringlogger/ringlogger.go:137-141 | the longest beginning of a text that fits the slot is kept |
| RingLogger.AfterHolds | ringlogger/ringlogger.go:125-151 | any run of writes leaves the last 2048 of them in the ring, however often the counter wrapped |
| RingLogger.ListingIsTail | ringlogger/ringlogger.go:154-177 | a listing is the last min(k, 2048) lines, oldest first, also after the counter wrapped |
| RingLogger.FirstPoll | ringlogger/ringlogger.go:186-222 | the first poll delivers what a listing shows and leaves the cursor after the newest line |
| RingLogger.FollowFrom | ringlogger/ringlogger.go:186-222 | a later poll looks at the last g lines, g being the number written since modulo 2048, and delivers them up to the first one stamped zero |
| RingLogger.PollDelivers | ringlogger/ringlogger.go:186-222 | with fewer than 2048 lines since, exactly those before the first one stamped zero are delivered, and the cursor stays at that one |
| RingLogger.PollCompleteIff | ringlogger/ringlogger.go:200-213 | a later poll delivers all lines written since if and only if there are fewer than 2048 and none of them is stamped zero |
| RingLogger.PollsDeliverOnce | ringlogger/ringlogger.go:186-222 | over any run of polls with fewer than 2048 writes between them, each line is delivered exactly once, in order |
| RingLogger.HeldUp | ringlogger/ringlogger.go:205-213 | further polls deliver nothing while the line stamped zero is in the ring |
| GlobalWrite.GlobalWriter.Write | ringlogger/global.go:38-60 | the chunks handed on and the pending buffer are all the bytes ever taken, in order; no newline stays pending; the loop ends even when entered with a full buffer; the ring has every chunk |
| GlobalWrite.ChunksFit | ringlogger/global.go:33-36 | no chunk is cut by the ring, whatever the tag |
| GlobalWrite.FitsIff | ringlogger/ringlogger.go:137-141 | a text is kept whole if and only if tag and text leave room for four more bytes |
| ManagerFrames.WriteFrame | manager/protocol_v1.go:604-618 | writes exactly one frame, or a prefix of it and an error; with a writer that always takes something it succeeds for every payload of acceptable length |
| ManagerFrames.WriteBytes | manager/protocol_v1.go:620-632 | writes all of the data however little each call takes, or a prefix of it and an error |
| ManagerFrames.ReadFrameIff | manager/protocol_v1.go:580-602 | a frame is four bytes with the length, least significant first, and a payload of one byte up to a mebibyte |
| ManagerFrames.FramesRoundTrip | manager/protocol_v1.go:580-602 | frames written one after the other are read back as the same payloads, whatever follows |
| ManagerSession.Serve | manager/protocol_v1.go:205-239 | answers the frames of any input in order until one does not decode or a response cannot be written; what was written is those responses' frames |
| ManagerSession.AnsweredInOrder | manager/protocol_v1.go:205-239 | every decoded request gets one response, in order, with its identifier |
| ManagerSession.DispatchedAnswer | manager/protocol_v1.go:221-234 | a dispatched request is answered with what the service returned for it, result or error |
| ManagerSession.RefusedAnswer | manager/protocol_v1.go:213-220 | any other request is refused: for its version, for coming before the greeting, or as invalid, each in exactly its case |
| ManagerSession.DispatchedIff | manager/protocol_v1.go:213-223 | a request is dispatched if and only if it is well-formed and either is a hello before any succeeded or is no hello after one did |
| ManagerSession.OneHello | manager/protocol_v1.go:217-234 | at most one hello succeeds; up to it only hellos are dispatched, after it none |
| DriverAdapters.StepKeeps | manager/ipc_driver.go:24-62 | every step of any thread keeps the invariant of locks, cache and adapters |
| DriverAdapters.HandedOutIsOpen | manager/ipc_driver.go:24-49 | in every interleaving an adapter handed out is locked by its finder alone, is the cached one of its name and is not closed |
| DriverAdapters.FindEnds | manager/ipc_driver.go:24-49 | in every interleaving a find comes back without an adapter if and only if opening one failed during it, and otherwise with one of the name it was asked for |
| DriverAdapters.ReleaseEnds | manager/ipc_driver.go:51-62 | in every interleaving, when a release comes back, all adapters opened under the name are closed, each once, and the name is free |
| DriverAdapters.ClosedOnce | manager/ipc_driver.go:51-62 | in every interleaving each adapter is closed at most once, and never while in use or cached |
| DriverAdapters.OneOpenPerName | manager/ipc_driver.go:33-48 | in every interleaving at most one adapter of a name is open |
| DriverAdapters.NoDeadlock | manager/ipc_driver.go:24-62 | in every interleaving, while a call is under way or an adapter in use, some such thread can move |
| Pitfalls.WeakHostSend | tunnel/pitfalls.go:105-172 | for the hosts that are addresses of the family, the nested loops with their cached lookups report the interfaces that the uncached scan of each address reports |
| Pitfalls.ScanRow | tunnel/pitfalls.go:127-165 | looking an interface up lazily and once for all endpoints changes no record |
| Pitfalls.ScanIs | tunnel/pitfalls.go:126-167 | a record describes the best usable route of the table: longest prefix, least metric, later row; name and weakness are those of the last foreign route that was best when it was read |
| Netip.ContainsIff | tunnel/pitfalls.go:137 | a prefix contains the addresses of its family from its first one on, two to the number of its free bits |
| Pitfalls.WarnedIff | tunnel/pitfalls.go:167-172 | for a table in a given order, the exact condition of the warning |
| Pitfalls.OrderMattersIff | tunnel/pitfalls.go:157-172 | all orders of a table agree on the warning if and only if the table is not sensitive: no best route is ours, or no weak foreign route is as good while some foreign one is, or no usable foreign route is weak; then no order warns |
| Pitfalls.SensitiveExample | tunnel/pitfalls.go:157-172 | a default route of ours and a weak foreign one of larger metric make a sensitive table |
| KillSwitch.OnCheckedChanged | ui/editdialog.go:194-281 | the handler's passes and flags compute the specified rewrite; a text that cannot be switched stays |
| KillSwitch.ToggleIsSafe | ui/editdialog.go:194-281 | after a successful toggle the text parses to the old configuration with allowed IPs that cover the same addresses; switched on it restricts traffic unless Table is off, switched off it does not |
| KillSwitch.OnSome | ui/editdialog.go:229 | switching on succeeds if and only if both halves of a family are there |
| KillSwitch.OnIn | ui/editdialog.go:219-254 | which prefixes there are after switching on |
| KillSwitch.OffIn | ui/editdialog.go:255-280 | which prefixes there are after switching off |
| KillSwitch.OnCovers | ui/editdialog.go:219-254 | joining halves into default routes leaves the covered addresses unchanged |
| KillSwitch.OffCovers | ui/editdialog.go:255-280 | splitting default routes into halves leaves the covered addresses unchanged |
| KillSwitch.OnOff | ui/editdialog.go:219-280 | on and off again gives the same set of prefixes if and only if there was no default route before |
| KillSwitch.Restriction | tunnel/addressconfig.go:165-177 | the loop decides whether the only peer of a tunnel with routes has a default route |

## Left out

- ConfParser.Parse: error values are kinds without the offending text and its translation.
- ConfParser.Parse: a second `[Interface]` after a `[Peer]` appends the current peer and keeps it, as the code does; the two
  entries share their comment maps there and are equal values here, which `ConfCanonical.PruneSectionIdempotent` justifies.
- TunnelName.EqualFold: exact when one of the two texts is ASCII, which all callers ensure.
- Text.ToLowerChar: exact for characters whose lower case is ASCII; no other character can spell a keyword.
- NaturalSort.TunnelNameIsLess: the fold of non-ASCII letters is a parameter, and numbers are read as on a 64-bit platform.
- Relocation.PerformBaseRelocation: addresses are offsets in the image; the directory must lie in the image and the sites in
  the image and outside the table, since the code reads and writes unchecked memory. An entry of no width needs a position in
  the image too, and an instruction pair eight bytes, though the code leaves the second word alone when it need not change.
- RelocationTable.RelocateUpTo: places that share bytes are patched one after the other; what they hold then is said by
  `Relocation.PerformBaseRelocation` only, entry by entry.
- SectionRanges.FinalizeSections: a word of flags is the set of its bits, and an address is joined to the upper half of the
  image base by adding, the two sharing no bit. What the ranges mean is proved for sections in order without overlap, as
  linkers emit them.
- DeterministicGuid.DeterministicGuid: prefixes are valid and without zone, as everything the parser makes; blake2s itself is
  not part of this model.
- DriverConfig.FromDriverConfiguration: the buffer must hold the records its counts announce; handshake times stay raw
  numbers.
- RingLogger.Ringlogger.WriteWithTimestamp: one write is atomic; the races between writers that the code documents, and the
  mapped file, closed or not, are not modelled; trimming white space is a parameter.
- FileList.ExtractNewestFile: the signature check of ed25519 is a parameter; text is one byte a character.
- ManagerSession.Serve: JSON, the requests' effects and the events sent beside responses are parameters or left out.
- DriverAdapters.NoDeadlock: callers unlock what they were given before they release, as all callers in the repository do;
  nothing is said about fairness.
- Pitfalls.WeakHostSend: a lookup repeated during one scan gives the same answer.
- FromWgQuickWithUnknownEncoding and Redact: guessing encodings and blanking secrets have no law to prove.
- Services, tokens, registry, DPAPI, winipcfg, firewall, tray and dialogs, downloads, MSI, custom actions, localisation:
  effects of Windows or display.
- Import and export tables, exception handlers and TLS callbacks of the loader: their memory layout is Windows's.
