# SideTNFS firmware: verified models

SideTNFS is firmware for a Raspberry Pi Pico that sits in the cartridge port of an Atari ST and gives it
GEMDOS drives and an emulated floppy, backed by TNFS file servers and an SD card. This project models the
stateful parts of `romemul/` in Dafny and proves what they promise, for every input, every server, every
network and every run. Machine widths, buffer sizes, retry counts and round limits are those of the source.
Loops over buffers are loops, C structs behind a module's static variables are class fields, and every
choice the firmware does not control (lost packets, time budgets, server answers, flash that programs badly)
is nondeterministic.

`dafny verify dfyconfig.toml` checks everything.

| files | part of the firmware |
|---|---|
| `Words`, `Octets` | machine words, C strings, little-endian fields |
| `Wildcard`, `Names`, `Wire` | 8.3 names, GEMDOS patterns and attributes, READDIRX framing and its three parsers |
| `Channel` | the request/response channel with its one-byte sequence number |
| `Tnfs` | the environment: servers with a cursor per handle, a network that loses requests and answers |
| `RawDir` | raw directory reading for the browser, through the batch cache |
| `Listing`, `Paths`, `Browse` | the floppy browser: page contents, path normalisation, the session |
| `DtaTable`, `DtaSearch`, `Dta` | Fsfirst/Fsnext: recency list, handle ledger, the search walk |
| `Msa` | the MSA image decoder, against the format in the comment above it |
| `Crc`, `Layout`, `Config`, `ConfigStore` | checksum, flash layout, validation and migration, the live configuration |
| `Frames` | the ROM3 command parser |
| `Floppy` | floppy image validation and the candidate swap |
| `Ipv4`, `Resolve` | address literals and late resolver answers |

How the environment is stated: a directory does not change while it is listed. A handle's cursor carries
`intact`, which stays true as long as everything the server handed out on it reached the receive buffer whole,
and `lost` counts how often that failed; `faults` counts exchanges that failed for a reason of their own.
Order, uniqueness and ledger claims are made for all runs, completeness for runs that lost nothing, success for
runs without faults. What a run without faults can lose is settled beforehand by the directory: nothing if all
answers fit the receive buffer (`Tnfs.AnswersFit`; `Tnfs.ShortNamesFit` gives name lengths), and otherwise it can
lose entries (`Tnfs.FifteenNamesOverflow`). So the main completeness results are also stated of the directory alone.
`prompt` says that a server answers every READDIRX with an entry or EOF.

Two models of the network stand side by side. `Channel` has packets that are lost, delayed, reordered and
duplicated, and shows when an accepted answer belongs to the request just sent. `Tnfs.Net`, which the directory
code runs on, starts from there: one call is one request with its own answer, either of which may be lost. A
request that reaches the server late or twice is not part of `Tnfs.Net`, and no theorem joins the two models.

Where a method and its specification read a flag, a word or a record through the same definition, a lemma named
`...ByByte`, `...ByNumber`, `...InBits` or `...Holds` says what that definition means in the bytes and numbers of the
wire, the file or the flash sector, without using it.

## Model

| member | source | states |
|---|---|---|
| Wildcard.WildcardMatchUpper | romemul/sidetnfs_probe.c:2275-2309 | the loop that remembers only the last `*` terminates, never accepts a name outside the recursive glob definition, and decides it exactly unless pattern and name both hold a `*` |
| Wildcard.StarInNameMisleads | romemul/sidetnfs_probe.c:2282-2303 | where a name does hold a `*` the loop can be wrong: it takes `*b` not to match `*ab`, because it compares letters before it looks for a `*` |
| Wildcard.GlobByNumber | romemul/sidetnfs_probe.c:2275-2309 | what a pattern means, by character code: 42 stands for any run, 63 for any one character, and a letter for itself in either case |
| Wildcard.LatestStarSuffices | romemul/sidetnfs_probe.c:2277-2303 | why one backtrack point is enough: once a later `*` is reached, a match that gives an earlier one more characters can be turned into one that does not |
| Wildcard.StarAbsorbs | romemul/sidetnfs_probe.c:2286-2290 | a `*` may swallow any prefix of the rest of the name |
| Wildcard.GlobNeedsLetters | romemul/sidetnfs_probe.c:2280-2300 | a match after the last `*` forces the letters of the segment, which makes a mismatch conclusive for that start position |
| Names.IsSupported83Name | romemul/sidetnfs_probe.c:2124-2186 | the counting loop accepts exactly BASE or BASE.EXT with one to eight and one to three legal upper-case characters |
| Names.LegalByNumber | romemul/sidetnfs_probe.c:2140-2172 | the characters an 8.3 name may hold, by code: above the blank, no lower-case letter, none of the nine punctuation marks, the dot only as separator |
| Names.NeverSupported | romemul/sidetnfs_probe.c:2130-2172 | two dots, a leading dot or one forbidden character each rule a name out, however it might be split |
| Names.SupportedHasNoStar | romemul/sidetnfs_probe.c:2150-2168 | a name GEMDOS can see holds no `*`, so the matcher is exact wherever Fsfirst and Fsnext use it |
| Names.NormalizeDirEntry | romemul/sidetnfs_probe.c:2212-2253 | an entry has an Atari form exactly if it is not special and its name is 8.3; a folder's size reads as zero |
| Names.GemdosPatternMatch | romemul/sidetnfs_probe.c:2261-2322 | after cutting the pattern to its buffer and dropping a trailing `.*`, the verdict is the glob's |
| Names.PatternByNumber | romemul/sidetnfs_probe.c:2261-2272 | twelve characters of a pattern are kept, of those a final `.*` goes, and nothing else does |
| Names.StarDotStarMatchesAll | romemul/sidetnfs_probe.c:2261-2322 | `*.*` matches every name, with or without an extension |
| Names.WantedIsTested | romemul/sidetnfs_probe.c:5233-5234 | what a search stands for, stated of the flags byte and the attribute bits, is what the tests on the converted entry decide |
| Names.StarDotStarFinds | romemul/sidetnfs_probe.c:2326-2337 | an entry with an 8.3 name is owed to a `*.*` search exactly if flag bit 2 is clear and its attribute byte (0x10 for flag bit 0, 0x02 for bit 1, 0x20 for neither) shares a bit with the search; name, kind, size and time of its row |
| Names.StarDotStarFindsFolders | romemul/sidetnfs_probe.c:5233-5240 | in a directory of 8.3 folders a `*.*` search finds all of them, in order, if bit 0x10 is asked for, and none otherwise |
| Wire.FramesOfCut | romemul/sidetnfs_probe.c:4382-4439 | from an encoded entry list cut at any byte, exactly the entries lying wholly before the cut are recovered |
| Wire.EntryByByte | romemul/sidetnfs_probe.c:4393-4411 | the bytes of one entry: flags, three 32-bit numbers low byte first, the name and its terminator |
| Wire.FitsIsMaximal | romemul/sidetnfs_probe.c:3740-3748 | the recovered prefix is the longest one whose bytes all fit the receive buffer |
| Wire.NextEntry | romemul/sidetnfs_probe.c:4393-4411 | one turn of a parser loop takes exactly the next whole frame and stays inside the buffer; all three parsers are built on it, so they agree on boundaries |
| Wire.FsListingParseBatch | romemul/sidetnfs_probe.c:4382-4439 | the result is a prefix of the answer's visible entries in Atari form, and all of them unless the caller's limit was reached |
| Wire.ParseReaddirxEntries | romemul/sidetnfs_probe.c:2342-2414 | the root probe counts each frame once: directories, files and translatable names |
| Wire.TallyAddsUp | romemul/sidetnfs_probe.c:2396-2412 | the total equals directories plus files and never exceeds the number of entries |
| Channel.FsListing.Receive | romemul/sidetnfs_probe.c:3672-3751 | a packet is stored only while a wait is in progress and only from the expected address, port and session; otherwise nothing changes; said of the packet's bytes: the session is read from the first two, low byte first |
| Channel.FsListing.Send | romemul/sidetnfs_probe.c:3787-3832 | a request whose server is known uses up one sequence number, shared by all request types, even when no packet buffer can be had |
| Channel.FsListing.Wait | romemul/sidetnfs_probe.c:5006-5058 | the wait succeeds at the first of its 200 polls whose last packet from the peer matches, and fails exactly if no poll has one or the server address is not known when it begins; which polls those are is also said byte by byte |
| Channel.HitByByte | romemul/sidetnfs_probe.c:5024-5030 | a poll ends the wait exactly if it brought a packet that starts with the two session bytes, the sequence byte and the command, and no later one from the same address, port and session |
| Channel.FsListing.Exchange | romemul/sidetnfs_probe.c:5006-5058 | under any delay, loss, reordering or duplication the accepted answer is to the same command on the same session, a multiple of 256 requests old, though possibly about another handle or path; if no packet is 256 or more requests late it answers the very request just sent; it succeeds exactly if the request went out, the server address is still known and a poll brought last a packet with the request's session, number and command in its first four bytes |
| Channel.FsListing.Idle | romemul/sidetnfs_probe.c:3687-3691 | between waits no arrival changes the accepted answer |
| Channel.PassesIffSameSeq | romemul/sidetnfs_probe.c:5024-5030 | a packet from an honest peer passes the command and sequence test exactly if its request was the same command on the same session a multiple of 256 requests ago |
| Channel.LateAnswerIsTaken | romemul/sidetnfs_probe.c:5036-5055 | the bound cannot be dropped: an answer exactly 256 requests late to the same command on the same session is taken for the new one, whatever handle or path either was about |
| Tnfs.Net.OpenDirX | romemul/sidetnfs_probe.c:3787-3832 | environment: a handle number the server does not have open with a cursor at the start, a refusal, or nothing; without a fault the first exactly for directories that exist |
| Tnfs.Net.ReadDirX | romemul/sidetnfs_probe.c:3837-3875 | environment: the server hands out the next entries in any grouping; what reaches the buffer is a prefix, and everything if nothing was lost or cut; without a fault entries are lost exactly if the answer does not fit the buffer |
| Tnfs.FifteenNamesOverflow | romemul/sidetnfs_probe.c:4727-4755 | a loss without any fault: of fifteen names of 37 characters in one answer only fourteen are read, while the server has handed out all fifteen; the source's comment takes this for the same as a smaller batch |
| Tnfs.ShortNamesFit | romemul/sidetnfs_probe.c:3740-3748 | answers of up to so many entries always fit if no name is longer than the buffer allows for each |
| Tnfs.Net.CloseDirX | romemul/sidetnfs_probe.c:3879-3920 | environment: at most this one handle is closed, certainly so if the answer says OK or nothing failed |
| RawDir.RawReader.OpenDir | romemul/sidetnfs_probe.c:4532-4582 | a fresh handle starts with nothing delivered, whatever the cache still holds for an equal handle number; without a fault it is obtained exactly if the directory exists |
| RawDir.RawReader.ReadDir | romemul/sidetnfs_probe.c:4601-4794 | each call delivers one further usable entry; the delivered positions always increase strictly, nothing is lost while answers are intact, and end-of-directory then means that every usable entry was delivered unless seven fetches in a row brought nothing; it fails only after a fault; without a fault nothing is lost if answers of up to fifteen entries fit the buffer, and it does not give up early on a prompt server unless seven entries in a row are unusable |
| RawDir.RawReader.Fetch | romemul/sidetnfs_probe.c:4680-4770 | one fetch into a drained cache keeps delivered plus cached an ordered selection of the directory; if nothing was lost it brought exactly the usable ones of the entries it moved past, and a prompt server moved on or said EOF |
| RawDir.DryTooLong | romemul/sidetnfs_probe.c:4656-4794 | seven fetches of a prompt server that bring nothing usable mean seven unusable entries in a row |
| RawDir.ParseRawBatch | romemul/sidetnfs_probe.c:4735-4770 | the cache receives exactly the usable entries of the answer, in order, without dot, special and over-long names |
| RawDir.TrackFetch | romemul/sidetnfs_probe.c:4601-4794 | a fetch that brings the first entries the server handed out keeps order, and completeness if it brought all of them |
| RawDir.TrackDone | romemul/sidetnfs_probe.c:4660-4668 | nothing cached, nothing left on the server and nothing lost: what was delivered is all there is |
| RawDir.RawReader.CloseDir | romemul/sidetnfs_probe.c:4801-4814 | a close is attempted and the handle leaves the ledger; without a fault the server has closed it |
| Listing.CatalogueIsComplete | romemul/include/sidetnfs_floppy_browse.h:149-178 | the page order lists every usable entry once, subdirectories before files, in server order within a kind |
| Listing.CatalogueInBits | romemul/sidetnfs_probe.c:4757-4769 | the page order lists exactly the entries with flag bit 2 clear and a name other than "", "." and ".." of fewer than 256 characters |
| Listing.TwoPassesSelect | romemul/sidetnfs_floppy_browse.c:609-926 | whatever either of the two passes missed, their rows together are usable entries without repetition in page order |
| Listing.KindWithinPopulation | romemul/sidetnfs_floppy_browse.c:755-772 | however much was lost, a pass meets no more rows of its kind than the directory has |
| Paths.NormalizePath | romemul/sidetnfs_floppy_browse.c:81-155 | the result is the stack evaluation of the components; it fails exactly if input or result do not fit their buffers, and the component table never drops one |
| Paths.RenderedTargetIsCanonical | romemul/sidetnfs_floppy_browse.c:81-155 | any normalised path starts with `/`, has no empty, `.` or `..` component, and has the evaluated components |
| Paths.NormalizeIsIdempotent | romemul/sidetnfs_floppy_browse.c:81-155 | normalising a canonical path returns it |
| Paths.EnterTarget | romemul/sidetnfs_floppy_browse.c:393-427 | entering an accepted name appends exactly that component |
| Paths.UpTarget | romemul/sidetnfs_floppy_browse.c:393-402 | going up drops the last component and stays at the root |
| Paths.EnterThenUp | romemul/sidetnfs_floppy_browse.c:393-427 | entering a directory and going up leads back to where one was, as path texts |
| Paths.ComponentByNumber | romemul/sidetnfs_floppy_browse.c:81-155 | any path text extended by a component: 47 and 92 separate, 46 stays, 46 46 goes up, anything else goes down |
| Paths.JoinRootAndCwd | romemul/sidetnfs_floppy_browse.c:167-180 | the collapsing loop terminates, fails exactly if the text does not fit, and leaves no `//` |
| Paths.JoinedComponents | romemul/sidetnfs_floppy_browse.c:157-180 | the joined path's components are the root's followed by the working directory's, so nothing above the root can be named |
| Browse.Browser.AbandonWalk | romemul/sidetnfs_floppy_browse.c:187-195 | a parked walk's handle is closed and none stays open |
| Browse.Browser.Open | romemul/sidetnfs_floppy_browse.c:201-364 | success gives a canonical existing directory, the requested one or the root, and a new generation; without a fault it succeeds exactly if one of the two opens; failure leaves session and generation as they were; no walk survives either way |
| Browse.Browser.Candidate | romemul/sidetnfs_floppy_browse.c:393-427 | the target is one component more or one fewer, exactly when the name is acceptable and the texts fit |
| Browse.Browser.ChangeDir | romemul/sidetnfs_floppy_browse.c:373-490 | success moves by exactly one component to an existing directory under a new generation, and without a fault happens exactly if that directory opens; failure leaves working directory, generation and a parked walk untouched; stale generations are refused |
| Browse.ThereAndBack | romemul/sidetnfs_floppy_browse.c:393-427 | the destination of going up from where entering a name led is the old working directory, and it can be asked for exactly if `cwd/name/..` fits the buffer |
| Browse.Browser.EnterAndReturn | romemul/sidetnfs_floppy_browse.c:373-490 | two successful changes, into a directory and up again, restore the working directory under a generation two later; without a fault the second succeeds exactly if the text fits and the old directory still opens |
| Browse.Browser.GetPage | romemul/sidetnfs_floppy_browse.c:609-926 | however calls are cut by the time budget, a finished page shows `list[15p..15p+15]` of subdirectories then files with the right kinds, `has_next` holds exactly if more follow, END exactly if the slice is empty; a stale generation shows nothing; an unfinished call has used its whole budget and shrinks the remaining measure by as much; it fails only after a fault, or with BACKEND_ERROR if a pass would have to meet more than 100000 rows up to the page, in a walk that lost nothing exactly then; the page is also stated of the bytes the server sent: a row is a directory exactly if bit 0 of its entry's flags is set, those come first, and no entry with bit 2 set is shown |
| Browse.Browser.FetchPage | romemul/sidetnfs_floppy_browse.c:609-926 | a caller that repeats GET_PAGE, whatever walk is parked, gets an answer within twice the directory's length plus four calls, however small the budget of each single call; without faults, on a prompt server and in a directory whose answers fit the buffer and which has no seven unusable entries in a row, that is BACKEND_ERROR if one pass would have to meet more than 100000 rows, and else exactly the asked-for slice; with nothing lost a page is always that slice; without faults it is no error unless the page ends past row 100000 and one kind has more than 100000 rows; the same in flag bits, for any page it gets |
| Browse.ShownInBits | romemul/sidetnfs_floppy_browse.c:754-771 | a finished page holds rows `15p` to `15p + 14`, in 32-bit arithmetic, of a list of showable entries with bit 0 first; if nothing was lost, of all of them |
| Browse.Browser.WalkTurn | romemul/sidetnfs_floppy_browse.c:678-787 | every round finishes the page, ends the walk or makes the lexicographic remainder smaller; it breaks off only after a fault or when the phase's own count has passed 100000 |
| Browse.Browser.EndPass | romemul/sidetnfs_floppy_browse.c:735-754 | the end of the first pass closes its handle and starts the second; the end of the second completes the page |
| Browse.Browser.RemainingIsBounded | romemul/sidetnfs_floppy_browse.c:617-787 | a walk takes at most twice the directory's length plus three rounds over all its calls |
| Browse.PassDone | romemul/sidetnfs_floppy_browse.c:735-754 | a complete second pass makes the region the asked-for slice of the whole catalogue |
| Browse.GivesUp | romemul/sidetnfs_floppy_browse.c:708-715 | when the test on the phase-local count strikes, so many rows of one kind exist before the end of the page; in a walk that lost nothing the exact condition holds |
| Browse.WithinReach | romemul/sidetnfs_floppy_browse.c:708-715 | conversely, a walk that lost nothing and comes to its end did not meet that condition |
| Browse.RightKind | romemul/sidetnfs_floppy_browse.c:755-782 | a row of the wanted kind is skipped, written or one too many exactly by its rank in the combined listing, although the code counts per phase |
| DtaTable.RepresentsAdd | romemul/sidetnfs_probe.c:4888-4930 | a new search enters the recency list at the back |
| DtaTable.RepresentsDrop | romemul/sidetnfs_probe.c:4940-4954 | a released search leaves the list and the order of the others |
| DtaTable.RepresentsTouch | romemul/sidetnfs_probe.c:5136-5142 | a used search moves to the back |
| DtaTable.VictimIsFront | romemul/sidetnfs_probe.c:4850-4886 | with all slots active, the slot of the lowest tick is the list's front: every other search was used after it |
| Dta.Registry.Alloc | romemul/sidetnfs_probe.c:4841-4886 | a free slot is taken if there is one; otherwise every slot is active and exactly the least recently used search is evicted |
| Dta.Registry.Insert | romemul/sidetnfs_probe.c:4888-4930 | the registry becomes the recency list with this search inserted: it replaces its own entry or at most one other slot changes |
| Dta.Registry.ReleaseSlot | romemul/sidetnfs_probe.c:4940-4954 | the slot is vacated and the handle's close attempted; without a fault the server has closed it |
| Dta.Registry.Release | romemul/sidetnfs_probe.c:4940-4954 | exactly this search is gone, its handle's close was attempted, and an unknown ndta changes nothing |
| Dta.Registry.CloseHandle | romemul/sidetnfs_probe.c:5071-5127 | may only be asked for a handle not confirmed closed; at most this handle is closed, and without a fault it is, and confirmed so |
| Dta.Registry.FindNextMatch | romemul/sidetnfs_probe.c:5136-5247 | the answer accounts for every entry the server handed out in between, at most one for each of the 512 rounds, and a found one is the last of them; NOT_FOUND takes a recorded EOF; one touch is made, and only this search and its handle are affected; without a fault it gives up only after all 512 rounds |
| Dta.Registry.Start | romemul/sidetnfs_probe.c:5249-5345 | without a fault the search reaches the registry exactly if the directory exists; a failed OPENDIRX changes nothing; else it stays registered exactly if it found something and its pattern has a wildcard, the recency list is as specified, and with nothing lost the first match of the directory is the answer and the rest is what the search owes; it is an error if the first 512 entries hold no match, and without a fault only then or if there are just 511 and none matches |
| Dta.Registry.Next | romemul/sidetnfs_probe.c:5347-5368 | pays the next owed entry or ends the search; NOT_FOUND with nothing lost means nothing was owed; with nothing lost it is an error if the next 512 entries hold no match, and without a fault only then or if just 511 are left and none matches; an unknown ndta changes nothing |
| Dta.Registry.List | romemul/sidetnfs_probe.c:5249-5368 | Fsfirst and then Fsnext to the end terminates on every network; with nothing lost the collected entries are a prefix of the matching ones in server order, and if it ends with NOT_FOUND they are all of them and no 512 entries in a row were without a match; without faults nothing is lost if every entry fits the buffer when sent alone, and on a prompt server it then ends with NOT_FOUND and all matches unless some 512 entries in a row, or exactly the last 511, are without a match; a complete `*.*` listing of 8.3 folders holds all of them if bit 0x10 is asked for, and nothing otherwise |
| DtaSearch.CutsByNumber | romemul/sidetnfs_probe.c:4911-4912 | the registry keeps 127 characters of a path and 12 of a pattern |
| DtaSearch.GapFound | romemul/sidetnfs_probe.c:5153-5246 | a search that used up its rounds without an answer stood before 512 entries without a match, or before exactly 511 that end the directory |
| DtaSearch.StretchHolds | romemul/sidetnfs_probe.c:5153-5246 | conversely, no search gets past 512 entries in a row without a match: it gives up there, whatever the server flags |
| Dta.Registry.CloseConfirmed | romemul/sidetnfs_probe.c:5470-5515 | one request; the search is dropped exactly if the server confirms the close, which without a fault it does |
| Dta.Registry.CloseByPath | romemul/sidetnfs_probe.c:5430-5536 | true exactly if no search on this slot and path is left, which without a fault is always so; the count is right; no other search, record or handle is touched |
| Dta.Registry.ReleaseAll | romemul/sidetnfs_probe.c:4961-4970 | no search is left, and every handle ever obtained has had its close attempted |
| DtaSearch.KeptSearchesOweTheSame | romemul/sidetnfs_probe.c:5249-5368 | operations on one ndta leave what every surviving other search owes its caller unchanged |
| DtaSearch.RoundFacts | romemul/sidetnfs_probe.c:5193-5243 | a round's single entry is an answer exactly if it is wanted, and contributes nothing otherwise |
| DtaSearch.LruInsertTouch | romemul/sidetnfs_probe.c:4921-5142 | the two ticks of one Fsfirst leave the search where the first put it |
| DtaSearch.LedgerAdd | romemul/sidetnfs_probe.c:4902-4921 | a newly obtained handle is held by exactly the slot that took it |
| DtaSearch.LedgerVacate | romemul/sidetnfs_probe.c:4940-4954 | a slot may be vacated once its handle's close was attempted, and no handle is forgotten |
| Msa.Unpack | romemul/filesys.c:278-333 | the run-length loop turns any legal stream into exactly the bytes it stands for and accounts for each of its own bytes |
| Msa.ReadAhead | romemul/filesys.c:226-256 | reading a payload and the word after it leaves the file positioned at the next block with its length known, and bytes are left exactly if blocks or padding are |
| Msa.DecodeTrack | romemul/filesys.c:228-356 | the sides of one track are decoded in order, and the file then stands at the next track |
| Msa.DecodeBlock | romemul/filesys.c:226-357 | one block adds exactly one side of one track to the image |
| Msa.MsaToSt | romemul/filesys.c:124-382 | for every accepted header, a file that stores each track verbatim or as a strictly shorter legal stream, with or without bytes after the last one, is turned into exactly its image; a header that is bad in its bytes is refused; if some access to the card fails, exactly the blocks before it have been written, and the result says so |
| Msa.BlockInImage | romemul/filesys.c:31-42 | track and side order: block k is the k-th stretch of the image |
| Msa.HeaderByByte | romemul/filesys.c:193-206 | a header is refused exactly by its bytes: $0E $0F first, then high byte first at most 56 sectors, at most 1 for sides, and tracks in order up to 86; what it says about track size and block count |
| Msa.BlocksByByte | romemul/filesys.c:39-67 | a block starts with its length, high byte first; a run is $E5, the byte, and the length, high byte first; any byte but $E5 stands for itself |
| Msa.PackOneRun | romemul/filesys.c:49-76 | four or more equal bytes, and any number of $E5, are stored as one run |
| Msa.CommentExamples | romemul/filesys.c:57-64 | the comment's own examples: six $AA are $E5AA0006, and one $E5 is $E5E50001 |
| Msa.PackExpands | romemul/filesys.c:44-76 | packing by the format comment's rules gives a legal stream for the same bytes |
| Msa.EveryLegalFileIsRead | romemul/filesys.c:15-81 | whatever legal coding is chosen for each track, and whatever follows the last one, the decoder's precondition holds of the resulting file |
| Msa.EncoderRoundTrip | romemul/filesys.c:15-81 | encoding any disk of an accepted geometry gives a file whose image is that disk |
| Crc.ComputeCrc32 | romemul/sidetnfs_config.c:55-68 | the nested loop with its mask computes the register fold |
| Crc.CheckValue | romemul/sidetnfs_config.c:55-68 | the checksum of "123456789" is the published check value 0xCBF43926 |
| Crc.BitStepIsBijective | romemul/sidetnfs_config.c:61-65 | a bit step can be undone and reaches every register content |
| Crc.BitStepsLinear | romemul/sidetnfs_config.c:61-65 | errors spread through the register independently of its contents |
| Crc.FourBytesAreAnInjection | romemul/sidetnfs_config.c:58-66 | from one register content, different strings of up to four bytes lead to different contents |
| Crc.BurstsAreDetected | romemul/sidetnfs_config.c:55-68 | changing up to four consecutive bytes of a buffer of any length changes its checksum |
| Crc.StoredBurstsAreDetected | romemul/sidetnfs_config.c:402-412 | the same for data with its stored checksum, wherever the change falls, the checksum and the seam included |
| Layout.ParseSerialize | romemul/include/sidetnfs_config.h:91-140 | a configuration block written to bytes reads back as itself |
| Layout.SerializeParse | romemul/include/sidetnfs_config.h:91-140 | any 1552 bytes are the bytes of the block they are read as |
| Layout.BlockByByte | romemul/include/sidetnfs_config.h:126-135 | where magic number, version, letter, count, reserved bytes and checksum lie in the 1552 bytes |
| Layout.RecordByByte | romemul/include/sidetnfs_config.h:91-106 | where each field of record k lies, from 12 + 192k on |
| Layout.BurstsBreakTheChecksum | romemul/sidetnfs_config.c:402-412 | up to four consecutive wrong bytes in a good block make its checksum wrong |
| Config.ValidateDriveRecord | romemul/sidetnfs_config.c:88-127 | OK exactly for a complete record of a known type with a legal letter |
| Config.RecordByNumber | romemul/sidetnfs_config.c:88-127 | a complete record in numbers: letter 67 to 90; type 2 with transport 0 or 1, a port, a host and a mount path; or type 1 with an SD path |
| Config.CountByNumber | romemul/sidetnfs_config.c:142-153 | the count is the number of slots in state 1 or 2 |
| Config.ValidateStructure | romemul/sidetnfs_config.c:179-234 | OK exactly for legal, pairwise distinct letters (the settings drive included), complete records and the right count; any other status names a fault that is there |
| Config.SavedImageIsValid | romemul/sidetnfs_config.c:679-729 | the clean image of a valid configuration is valid and its checksum right |
| Config.SavedImageHolds | romemul/sidetnfs_config.c:692-729 | the saved image field by field: each record keeps what its type uses, texts up to their last byte, and is zero elsewhere |
| Config.SavedImageLoads | romemul/sidetnfs_config.c:340-455 | what is saved loads again, byte for byte |
| Config.SavedImageIsStable | romemul/sidetnfs_config.c:692-724 | saving what was saved changes nothing |
| Config.V2BlocksLoad | romemul/sidetnfs_config.c:298-338 | a version 2 block with a right checksum loads exactly if its used records are complete and all letters distinct |
| Config.MigrationPreserves | romemul/sidetnfs_config.c:298-338 | migrated records are ENABLED exactly where `used` was set, keep every field, and end their strings |
| Config.DamagedBlocksAreRefused | romemul/sidetnfs_config.c:340-440 | a trusted block of either version hit by up to four consecutive wrong bytes is not loaded |
| Config.FactoryImageLoadsDefaults | romemul/sidetnfs_config.c:808-841 | flash that matches the factory image loads as the built-in defaults |
| Config.DefaultsByNumber | romemul/sidetnfs_config.c:22-35 | the built-in defaults in numbers: drive N on retroloft.net, port 16384, settings drive S, all other slots zero |
| ConfigStore.Store.Init | romemul/sidetnfs_config.c:340-455 | for any flash contents the configuration is valid afterwards: the one the bytes stand for if they are to be trusted, else the defaults with the right reason |
| ConfigStore.Store.Migrate | romemul/sidetnfs_config.c:298-338 | refuses exactly the blocks with a wrong checksum |
| ConfigStore.Store.SetDrive | romemul/sidetnfs_config.c:516-592 | OK exactly if index, state, record and letter are acceptable; then every other slot and field but the count stays, this slot holds what the record's type uses and zeros elsewhere, the count is the number of configured slots, and the configuration stays valid; otherwise nothing changes and the status names the fault |
| ConfigStore.Store.SetDriveState | romemul/sidetnfs_config.c:598-631 | OK exactly for a known state of a configured slot, or for clearing; every other field the type uses is kept, and every other slot |
| ConfigStore.Store.DeleteDrive | romemul/sidetnfs_config.c:633-648 | OK exactly for a slot that is not empty, which is zero afterwards while every other slot is kept |
| ConfigStore.WithIsOnlySlot | romemul/sidetnfs_config.c:589-590 | storing a record changes one slot and the count, nothing else |
| ConfigStore.CountFollows | romemul/sidetnfs_config.c:142-153 | when one slot changes the count goes up, down or stays with that slot |
| ConfigStore.Store.SetConfigDriveLetter | romemul/sidetnfs_config.c:650-669 | OK exactly for a legal letter no configured drive uses |
| ConfigStore.Store.Save | romemul/sidetnfs_config.c:679-771 | never fails because of the configuration; the status is exactly the read-back's verdict on what the sector then holds; OK means RAM holds the clean image, field by field what was configured; a sector holding it with up to four consecutive wrong bytes is never reported as saved |
| ConfigStore.Store.SaveAndRestart | romemul/sidetnfs_config.c:340-771 | on a sector that programs well a save followed by a start gives the same configuration |
| ConfigStore.Store.FactoryReset | romemul/sidetnfs_config.c:802-806 | on a sector that programs well it succeeds and flash then matches the factory image |
| ConfigStore.Store.FlashMatchesFactoryDefaults | romemul/sidetnfs_config.c:808-841 | true exactly if the checksum is right and everything it covers is the factory image |
| Frames.Parser.Parse | romemul/tprotocol.c:108-149 | the switch over global variables is one step of the parser's state machine |
| Frames.FrameDelivers | romemul/tprotocol.c:21-62 | a frame that starts in header state, or after a pause longer than the window, and stays within the window is delivered once with exact command, size and payload, without a write outside the buffer |
| Frames.PayloadByByte | romemul/tprotocol.c:49-62 | byte 2k of a payload is the low half of its word k, byte 2k + 1 the high half |
| Frames.StreamDelivers | romemul/tprotocol.c:108-149 | any mixture of frames and non-header words delivers exactly the frames in order; and so it does from any parser state if it starts with a non-empty frame after a pause |
| Frames.Listen | romemul/tprotocol.c:108-149 | feeding the parser word by word gives what the state machine gives on the whole stream |
| Frames.EmptyIsExact | romemul/tprotocol.c:35-47 | an empty frame that finds the parser ready, or comes after a pause, is delivered once, with the size the parser still holds: exactly as sent if, and only if, that is zero |
| Frames.EmptyAfterAborted | romemul/tprotocol.c:35-47 | a concrete stream in which an empty frame is delivered with the size of an aborted one |
| Floppy.ValidateGeometry | romemul/include/sidetnfs_floppy_emul.h:125-177 | an accepted geometry satisfies the documented size equations |
| Floppy.FittingImagesAreAccepted | romemul/sidetnfs_floppy_emul.c:6-36 | every file that satisfies the equations is accepted, with that geometry |
| Floppy.Emulator.OpenInto | romemul/sidetnfs_floppy_emul.c:315-460 | without a backend fault the outcome is the verdict on request and image; success holds one new open handle on this very image and its geometry; on any failure nothing stays open |
| Floppy.Emulator.Validate | romemul/sidetnfs_floppy_emul.c:426-458 | without a backend fault the status is the documented algorithm's on the whole image, of which only the size and the first sector are read |
| Floppy.DescribedByByte | romemul/sidetnfs_floppy_emul.c:448-450 | the geometry an open image is given, in the bytes 11, 12, 19, 20 and 24 to 27 of its boot sector and its length |
| Floppy.Emulator.Open | romemul/sidetnfs_floppy_emul.c:217-225 | the old image is closed first; the new state is ready exactly if the status is OK and then shows the asked-for image; the ledger holds |
| Floppy.Emulator.OpenCandidate | romemul/sidetnfs_floppy_emul.c:472-478 | the active record and the image behind it are untouched whatever happens; the candidate is ready exactly if the status is OK; the ledger holds |
| Floppy.Emulator.CommitCandidate | romemul/sidetnfs_floppy_emul.c:493-499 | the candidate becomes active with its handle open, and exactly the old image's handle is closed |
| Floppy.Emulator.DiscardCandidate | romemul/sidetnfs_floppy_emul.c:504-507 | of the open files at most the candidate's is closed, and the ledger counts exactly its handle as closed |
| Floppy.Emulator.Close | romemul/sidetnfs_floppy_emul.c:132-146 | of the open files at most the active one is closed, and the ledger counts exactly its handle as closed |
| Floppy.Emulator.ReadSector | romemul/sidetnfs_floppy_emul.c:202-215 | NOT_OPEN and OUT_OF_RANGE exactly when due, READ_FAILED only after a fault; a sector read is `image[512*lba..512*lba+512]`; a failed read leaves zeros |
| Floppy.LedgerCommit | romemul/sidetnfs_floppy_emul.c:493-499 | the swap keeps opened minus closed equal to what the two states hold, with no handle held twice or closed twice |
| Ipv4.ParseIpv4 | romemul/sidetnfs_resolve.c:5-48 | accepts exactly four dot-separated octets of one to three digits, each at most 255, with nothing trailing, and gives their address |
| Ipv4.OctetsIffDotted | romemul/sidetnfs_resolve.c:14-44 | a string has at most one reading as dotted octets |
| Ipv4.OctetByNumber | romemul/sidetnfs_resolve.c:5-48 | an octet is one to three of the characters 48 to 57, and its value their decimal one, at most 255 |
| Ipv4.LiteralByNumber | romemul/network.c:793-798 | `a.b.c.d` stands for a + 256b + 65536c + 16777216d, and that is printed as `a.b.c.d` without leading zeros |
| Ipv4.RoundTrip | romemul/network.c:793-798 | parsing a printed address gives the address back, for all of them |
| Resolve.Slots.Found | romemul/sidetnfs_probe.c:2644-2666 | an answer at any time changes at most the slot that started that very lookup, and only if it still waits for it |
| Resolve.Slots.Start | romemul/sidetnfs_resolve.c:51-74 | a lookup gets a number no earlier one had and abandons what the slot waited for |
| Resolve.Slots.Poll | romemul/sidetnfs_probe.c:2644-2666 | any batch of answers, stale ones included, affects only the slot that is waiting |
| Resolve.Slots.EnsureAddress | romemul/sidetnfs_probe.c:2686-2743 | only this slot changes; a literal costs no query; otherwise the outcome is that of the first answer to this very lookup within 400 polls, or failure; nobody is left waiting |
| Resolve.FirstForPrefix | romemul/sidetnfs_resolve.c:76-99 | answers after the first one for a lookup make no difference |

## Left out

- SD card back ends: page walks, Fsfirst and file reads that go to FatFS are modelled only where they share code with TNFS; the FatFS enumeration itself is foreign code.
- Msa.MsaToSt: stated for rejected headers and well-formed files; in malformed files the decoder's remaining-length tests compare an unsigned number with zero and so never fire. The free-space check is an access that may fail, whatever the card holds; the source asks it for one track less than the image has (romemul/filesys.c:216).
- Wildcard.WildcardMatchUpper: for names that hold a literal `*` soundness is proved and a counterexample to exactness given (`Wildcard.StarInNameMisleads`), but not for which patterns the answer is still right; names that reach the matcher cannot hold one (`Names.SupportedHasNoStar`).
- Dta.Registry.Start: completeness presumes that the server still knows the handles of the open searches; a close-by-path whose answer was lost leaves a search open on a handle the server may have given away.
- Dta.Registry.List: if exactly 511 entries are left and none matches, the 512 rounds are enough only if the server flags EOF together with the very last entry; for that case neither outcome is claimed.
- Dta.Registry.CloseByPath: the status code of the last close, which is reported for diagnosis, is not modelled; a missing path argument is not modelled.
- Browse.Browser.GetPage: the single-call walk of an SD card is not modelled; the order of listing presumes an unchanged directory; generations repeat after 2^32 changes, and page numbers wrap in the 32-bit product as in the source.
- Browse.Browser.ChangeDir: the check that a directory exists on an SD card is not modelled.
- Browse.Browser.Open: the SD card branch is not modelled; repopulating the shared floppy slot for another server, and what that does to a session on the previous one, is outside the model; the mount's outcome is a parameter.
- Floppy.Emulator.OpenCandidate: if the candidate is on another TNFS server, the source repopulates the shared floppy slot and with it the connection of the image in use; what that does to the image's handle is outside the model.
- Frames.Put: a payload longer than the buffer is not modelled; the parser method requires words that stay inside it, and all frames with a legal size do.
- Tnfs.Net.OpenDirX: a request that reaches the server late or twice; it could leave a handle open that nobody knows.
- Tnfs.Net.ReadDirX: a request that reaches the server late or twice; entries handed out for it would be lost without being counted.
- Tnfs.Net.CloseDirX: a request that reaches the server late or twice; it could close a handle the server has given away again.
- Channel.FsListing.Exchange: an answer exactly 256, 512, ... requests late can be accepted, also one about another handle or path (`Channel.LateAnswerIsTaken`).
- Resolve.Slots.Start: the lookup counter is not followed past 2^32 - 1.
- Names.NormalizeDirEntry: the packed date and time are left as the server's time stamp; calendar conversion rests on `gmtime`.
- Wire.ParseReaddirxEntries: the counters of pattern matches, attribute matches and skipped names, which are only reported, are not modelled.
- MOUNT, session ids and the attribution of late MOUNT answers between slots of one server.
- Diagnostics, event logs, status texts, the recorded `skipped` counters, LEDs, watchdog, USB, DMA and the PIO programs.
- The config-drive and SD-error search tables, `sidetnfs_system_config.c`, `sidetnfs_netconfig.c`, `sidetnfs_rtcconfig.c`: smaller repeats of the modelled parts.
- Ddelete's other release (`sidetnfs_tnfs_dta_release_by_path`) and the active-search counter: one-line uses of the modelled release and lookup.
