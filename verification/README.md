# SVS: verified models

SVS is a small versioning store. It keeps every version of a file as an object in MAIN.DAT, raw or as a
delta against its parent, and rests on three engines: a diff and patch library, the BLAKE3 tree hash, and
parts of an HTTP library. This project models the algorithms of all four and proves what they are for.

**Diff and patch** (`EditGraph`, `Clocks`, `MiddleSnake`, `Scripts`, `DiffList`, `Strings`, `HalfMatch`, `LineMode`, `Diffing`,
`MergeCleanup`, `SmallEqualities`, `SemanticCleanup`, `EfficiencyCleanup`, `Patches`, `PatchRecords`, `PatchMaking`,
`PatchPadding`, `PatchSplitting`, `PatchApplying`, `TextPatches`, with `Helpers`). Myers' middle-snake search runs on
its two arrays; it is proved against the edit graph, so that without a deadline no edit list beats the one returned,
and for every behaviour of the clock both texts are kept through trimming, half matches, line mode, bisection and clean-ups.
Each clean-up is proved against what it says of the list: which equalities go, which overlaps are cut, where an edit stands.
Patches are made, padded, split and applied; those made lead from source to destination exactly if no record they
need is lost.

**Text formats** (`TextCoding`, `Numerals`, `DeltaText`, `PatchHeader`, `PatchText`). Percent coding of UTF-16 text,
decoded in place, the delta text and the patch text, each with the exact condition under which reading gives
back what was written.

**BLAKE3** (`Blake3Bits` to `Blake3Lanes`, with `Bytes`). The incremental hasher with its lazily merged stack and its
wide subtrees equals the recursive tree of sections 2.1 and 2.4 to 2.6 of the BLAKE3 specification, for every
message, every cutting into updates and every SIMD degree. The compression function is a parameter there;
`Blake3Words` is the portable one, `Blake3Neon` the four-lane form, and `Blake3Lanes` puts both into the place of
the parameter.

**Delta encoding and MAIN.DAT** (`RingBuffers`, `RollingHash`, `DeltaCommands`, `Signatures`, `SignatureIndex`,
`DeltaEncoder`, `DeltaTails`, `SaveChoices`, `DataFiles`, `MainDat`, `SaveSession`, `Repository`, `DeltaSaves`). The encoder
works byte by byte; the decoder, which the repository does not have, is the specification. Saves write to a file that
may be cut at any write; `DeltaSaves` goes from the signature in the parent's object to the committed delta.

**HTTP** (`Streams`, `ChunkedCoding`, `Trailers`, `FormData`, `Ranges`, `RangeResponses`). Chunked coding with its trailer
(section 7.1 of RFC 9112), the multipart parser (section 5.1.1 of RFC 2046) and byte ranges with the answers they get
(sections 14.1.2, 14.2 and 14.6 of RFC 9110). Both readers are proved complete for what the writers send, and sound for
any bytes.

The clock of the diff, the score function of the semantic clean-up, the cuts of writes and the sizes of reads are
arbitrary; files and streams remember whether a write has failed, so that success is stated as the absence of failures. Lists the original edits through references are sequences passed in and returned;
objects whose methods update their fields are classes.

## Where the code departs from its intent

- The tail of a delta. At the end of a file the encoder takes the oldest bytes of the ring where it needs the
  newest (svslib/filesubsystem.cpp:394-399). `DeltaEncoder.EncodeFile` says exactly which files survive this, of any
  length. One byte behind a copied block is lost unless it is the second byte of the block: `DeltaTails.TailLost`. A file
  shorter than a block of the parent comes out with bytes that the ring held when it was allocated
  (svslib/filesubsystem.h:99): `DeltaTails.ShortTail`. Files above the threshold for deltas and with the block sizes the
  code derives (svslib/filesubsystem.cpp:49-61) are `DeltaTails.AppendedByteLost` and `DeltaTails.ShortVersionLost`.
  `DeltaEncoder.Encoder.NewestTailIsRight` shows that the newest bytes would serve every file.
- The last record of a diff is recognised by its value (svslib/diff_match_patch.h:1913). An earlier equality that looks
  the same is left out of the patch that is open: `PatchRecords.TwinIsDropped`. `PatchMaking.PatchMake` is an equivalence
  with `PatchRecords.Exact`, a condition on the records alone: those that reach a patch claim what stands in the source
  and do what all of them do. It holds when no equality inside an open patch is lost
  (`PatchRecords.ExactIfNothingDropped`), and fails whenever the record behind the first lost one begins with another
  character (`PatchRecords.LostRecordBreaks`). It may hold in spite of a loss: `PatchRecords.DropMayBeHarmless`. Two plain
  texts on which the code fails are `TextPatches.LostFromTexts`.
- An empty write ends the loop that writes a chunked body, because the sink then reports that no data is available
  (httplib.h:6046); the loop succeeds, and the last chunk is never sent: `ChunkedCoding.EmptyWriteStops`,
  `ChunkedCoding.WrittenIs`. A chunk of 2^32 - 1 bytes or more cannot be read back where `unsigned long` has 32 bits:
  `ChunkedCoding.HugeChunkLost`. `ChunkedCoding.RoundTrip` is an equivalence with the absence of both.
- A restart does not look at how much of the file has passed (svslib/filesubsystem.h:196). One before all whole blocks
  have passed leaves part of the gap for the signature unwritten (svslib/filesubsystem.cpp:405-422, 451-460):
  `Repository.SignatureFills` is an equivalence, `Repository.RestartLeavesGap` says how much stays unwritten, and
  `Repository.RestartAtOnce` is a plan with the constructor's choices.
- A line number must fit into one code unit (svslib/diff_match_patch.h:669). `LineMode.LinesToChars` and
  `Diffing.DiffLineMode` are equivalences with fewer than 65536 distinct lines, and so is `Diffing.DiffMain` for texts that
  leave it nothing but line mode; `Diffing.TooManyLinesLost` gives two texts on which it fails.
- Padding is added behind the last record of the first patch, not of the last one
  (svslib/diff_match_patch.h:2117). This does no harm: `PatchPadding.AddPadding` holds for the code as it is.
- The head context of a split patch is trimmed by the length of the old context (svslib/diff_match_patch.h:2212), so a
  turn of the loop may move nothing but a longer context. `PatchSplitting.SplitPatch` proves that the loop still ends.
- Broken surrogate pairs do not come back from the text formats, and a patch whose printed position would be
  negative cannot be read: `TextCoding.DecodeEncode`, `DeltaText.DeltaRoundTrip`, `PatchText.PatchRoundTrip` are
  equivalences, `DeltaText.BrokenPairLost` and `PatchText.NegativePositionLost` are inputs that fail.
- A save that follows a cut one without a reopening in between starts behind the uncommitted bytes and leaves a gap
  that the check reports: `Repository.Repository.Save` is an equivalence, `Repository.Repository.SaveAfterCut` such a pair
  of saves.
- A suffix range longer than the content is refused (httplib.h:6878-6897), where section 14.1.2 of RFC 9110 has the whole
  content served, and one range that cannot be satisfied refuses all: `Ranges.AgreesIff`, `Ranges.LongSuffixRefused`,
  `Ranges.OneOutsideRefuses`.

## Model

| member | source | states |
|---|---|---|
| `EditGraph.Through` | svslib/diff_match_patch.h:485-591 | no path through any point of the edit graph is cheaper than the edit distance of the two texts |
| `EditGraph.LivePredecessor` | svslib/diff_match_patch.h:515-530 | every point of a cheapest path with a positive cost has a predecessor on a cheapest path, one edit back and followed by a run of matches only: the step the frontier walk relies on |
| `EditGraph.LiveMirror` | svslib/diff_match_patch.h:545-575 | a point lies on a cheapest path exactly if its mirror image does in the reversed texts, with the two costs exchanged: why the reverse frontier may work on mirrored coordinates |
| `MiddleSnake.Reach` | svslib/diff_match_patch.h:515-530 | one forward step on one diagonal: the new entry is the start the neighbours give, moved along a run of matches, and it stops only at a mismatch or a border; the indices looked at are inside the table |
| `MiddleSnake.ReachBack` | svslib/diff_match_patch.h:552-566 | the same for the reverse frontier, in the mirrored texts |
| `MiddleSnake.StepKeeps` | svslib/diff_match_patch.h:513-535 | storing one entry keeps the furthest-reaching invariant of the whole frontier: entries are reachable with the edits spent, and no point of a cheapest path with that cost is ahead of them |
| `MiddleSnake.EndPass` | svslib/diff_match_patch.h:512-543 | after all diagonals of one step the frontier is furthest reaching for one edit more, although diagonals that ran off the grid are skipped |
| `MiddleSnake.OverlapIsLive` | svslib/diff_match_patch.h:535-541 | if a forward path of d1 edits passes a reverse path of d2 edits on one diagonal and the whole cost is d1 + d2, the forward end is a point of a cheapest path |
| `MiddleSnake.CheckFindsMeeting` | svslib/diff_match_patch.h:535-541 | when the far frontier is complete, the overlap test on a diagonal cannot miss a meeting point there |
| `MiddleSnake.ForwardPass` | svslib/diff_match_patch.h:512-543 | one forward step in the array: a reported overlap is a point of a cheapest path with odd cost 2d-1 at distance d; without one, the frontier is complete for the next step and the cost is larger |
| `MiddleSnake.ReversePass` | svslib/diff_match_patch.h:545-580 | one reverse step in the array: a reported overlap is a point of a cheapest path with even cost 2d; without one, the frontier is complete for the next step and the cost is larger |
| `MiddleSnake.Search` | svslib/diff_match_patch.h:485-584 | the whole search, with a clock asked once in every round: a split is found exactly if the texts have something in common and the deadline has not passed in any round up to the one that half of the edit distance needs; every index is inside the arrays, and the split lies on the grid, is no corner and is a point of a cheapest path |
| `Scripts.ScriptCost` | svslib/diff_match_patch.h:297-405 | no list of records between two texts has fewer inserted and deleted characters than their edit distance |
| `Scripts.CutCosts` | svslib/diff_match_patch.h:604-615 | cutting both texts at a point splits the cost into what the graph charges before and after the point |
| `Scripts.PrefixCost` | svslib/diff_match_patch.h:307-311 | a common prefix costs nothing: the edit distance of the rest is the edit distance of the whole |
| `Scripts.SuffixCost` | svslib/diff_match_patch.h:313-317 | a common suffix costs nothing |
| `DiffList.DiffText1` | svslib/diff_match_patch.h:1455-1463 | the source text: everything but the insertions, in order |
| `DiffList.DiffText2` | svslib/diff_match_patch.h:1471-1479 | the destination text: everything but the deletions, in order |
| `DiffList.Replace` | svslib/diff_match_patch.h:1259-1297 | replacing a stretch of a list by one with the same texts keeps both texts of the list and changes its edit length and its equality count by exactly the difference of the stretches |
| `DiffList.CommonPrefix` | svslib/diff_match_patch.h:700-709 | the longest common prefix, no more and no less |
| `DiffList.CommonSuffix` | svslib/diff_match_patch.h:718-729 | the longest common suffix, no more and no less |
| `Strings.Find` | svslib/diff_match_patch.h:355-375 | the first occurrence at or behind a place, or -1 exactly if there is none |
| `Strings.FindLast` | svslib/diff_match_patch.h:1790-1800 | the last occurrence, or -1 exactly if there is none |
| `Strings.CommonOverlap` | svslib/diff_match_patch.h:739-778 | the longest suffix of one text that is a prefix of the other, found by growing candidates |
| `HalfMatch.HalfMatchAt` | svslib/diff_match_patch.h:844-863 | the middle returned cuts both texts around itself, no occurrence of the seed grows into a longer one, and a match is reported exactly if the middle is half of the longer text |
| `HalfMatch.FindHalfMatch` | svslib/diff_match_patch.h:799-830 | a half match is found if and only if a seed at either of the two places grows, at any occurrence in the shorter text, into a match of at least half the longer text; the middle is the longest there is, and cuts both texts around itself |
| `LineMode.Munge` | svslib/diff_match_patch.h:660-672 | the text becomes one code unit for every line, numbers given in order of first appearance over the table handed in, truncated to a code unit |
| `LineMode.HydrateEncode` | svslib/diff_match_patch.h:681-691 | with fewer distinct lines than code units, replacing every code unit by its line gives back the text |
| `LineMode.EncodingFits` | svslib/diff_match_patch.h:660-672 | about the table alone: every entry survives being cut to a code unit exactly if there are fewer than 65536 of them |
| `LineMode.LinesToChars` | svslib/diff_match_patch.h:635-650 | both texts are coded over one table, and decoding gives both back if and only if they have fewer than 65536 distinct lines together |
| `LineMode.TooManyLines` | svslib/diff_match_patch.h:660-672 | the text in which line number 65536 first appears does not come back: its number becomes code unit 0, the blank entry, whatever else is in the table |
| `LineMode.SpelledAreTooMany` | svslib/diff_match_patch.h:660-672 | 65535 different lines of four letters each and a text of one other line have 65536 lines together |
| `LineMode.CharsToLines` | svslib/diff_match_patch.h:681-691 | rewriting every record in place replaces each of its characters by its line and nothing else |
| `LineMode.HydratedTexts` | svslib/diff_match_patch.h:681-691 | decoding all records of a list decodes both of its texts |
| `LineMode.FewLinesFit` | svslib/diff_match_patch.h:660-672 | 65531 distinct lines in both texts together are few enough for every part of them that can reach line mode |
| `LineMode.ShortTextsFit` | svslib/diff_match_patch.h:660-672 | texts of fewer than 65536 characters together always have few enough lines |
| `Diffing.NothingInCommon` | svslib/diff_match_patch.h:586-590 | texts without a common character cost their whole lengths, so the fall-through of the search is optimal |
| `Diffing.Contained` | svslib/diff_match_patch.h:359-370 | when one text lies inside the other, the three records returned lead from one text to the other and are minimal |
| `Diffing.SplitJoined` | svslib/diff_match_patch.h:604-615 | joining the lists of the two halves keeps both texts, and is minimal if the halves are and the cut is on a cheapest path |
| `Diffing.DiffCompute` | svslib/diff_match_patch.h:346-405 | every way out keeps both texts, and none wastes an edit when time is unlimited and lines are not used; a text cut out of the other is found at its first place and kept whole; with a deadline, what a half match finds is kept, and if the deadline never passes texts with something in common keep something |
| `Diffing.DiffApart` | svslib/diff_match_patch.h:384-405 | when no short cut applies: half match, line mode or bisection keep both texts; with a deadline, at least twice the longest half match is left out of the edits; when nothing but line mode is left to try, both texts are kept if and only if their lines are few enough |
| `Diffing.DiffBisect` | svslib/diff_match_patch.h:485-591 | bisection, with its recursion through both halves, keeps both texts for every behaviour of the clock, is minimal without a deadline, and keeps something of texts with something in common if the deadline never passes |
| `Diffing.DiffLineMode` | svslib/diff_match_patch.h:417-468 | diffing by lines and then again by characters keeps both texts if and only if they have fewer than 65536 distinct lines together; the list is that of the coded texts, spelled out, cleaned up, with every mixed run at its own edit distance |
| `Diffing.Rediff` | svslib/diff_match_patch.h:429-467 | replacing every run that has deletions and insertions by its character diff keeps both texts; without a deadline the edits are exactly the edit distances of the mixed runs and the lengths of the others; the list is edited in place behind the cursor |
| `Diffing.DiffMain` | svslib/diff_match_patch.h:271-332 | for all texts and every behaviour of the clock both texts are kept (with lines on, if the distinct lines fit); for long texts with different ends, neither inside the other and one too short for a half match, they are kept if and only if there are fewer than 65536 distinct lines; without deadline and line mode no edit list between the texts is cheaper; with a deadline the edits are no more than the trimmed lengths less twice any half match, whatever the clock does, and something in common is kept if it never runs out; the list ends up merged with no edit left that could be shifted; the recursion ends |
| `Diffing.TooManyLinesLost` | svslib/diff_match_patch.h:271-332 | two texts that fail, whatever the clock does: 65535 different lines of four letters, and one other line of 101 letters; the list that comes out does not lead from one to the other |
| `MergeCleanup.RunMerged` | svslib/diff_match_patch.h:1264-1297 | factoring common ends out of a run keeps both texts and saves two edits for every character factored |
| `MergeCleanup.StepJoin` | svslib/diff_match_patch.h:1298-1302 | joining an equality to the equality before it keeps the state of the pass |
| `MergeCleanup.StepRun` | svslib/diff_match_patch.h:1258-1309 | replacing a run by its merged form keeps the state of the pass: in front of the cursor every run is merged, the record before a run is an equality (so the error the code would throw is out of reach), both texts stay |
| `MergeCleanup.MergeRuns` | svslib/diff_match_patch.h:1238-1315 | the first pass, for every list, is the pass that closes each run at its equality: common ends are factored out, deletion before insertion, and equalities joined; it keeps both texts, leaves every run merged, and either saves edits or does not lengthen the list |
| `MergeCleanup.EqualitiesJoined` | svslib/diff_match_patch.h:1298-1302 | no two equalities are left next to each other, unless a run between them cancelled out |
| `MergeCleanup.ShiftEdits` | svslib/diff_match_patch.h:1322-1354 | the second pass changes something exactly if some edit between two equalities ends with the text of the first or begins with the text of the second; every change keeps both texts and the edit length and removes a record |
| `MergeCleanup.CleanupMerge` | svslib/diff_match_patch.h:1237-1359 | keeps both texts, never adds edits, ends in merged form with no edit that can be shifted over an equality beside it, by repeating both passes; terminates on edit length and then record count; a list of single edits that cannot be slid, between equalities, stays as it is |
| `SemanticCleanup.SplitKeeps` | svslib/diff_match_patch.h:909-912 | turning an equality into a deletion and an insertion keeps both texts and removes exactly one equality |
| `SemanticCleanup.FallBack` | svslib/diff_match_patch.h:913-934 | after the split, the equalities still on the stack are equalities of the new list in order, and the cursor goes behind the one that is safe, or to the start |
| `SmallEqualities.ScanEdit` | svslib/diff_match_patch.h:882-904 | an edit behind the equality looked at: either the equality is now small for the edits around it, or nothing in front of the cursor is small |
| `SmallEqualities.ScanBack` | svslib/diff_match_patch.h:909-934 | after a split the walk may go back to an equality before the one thrown away: nothing before it is small, and what was passed is settled although the remembered equality is gone |
| `SemanticCleanup.DropSmallEqualities` | svslib/diff_match_patch.h:874-937 | the walk back over the stack keeps both texts and ends; every equality it drops is at that moment not empty and no longer than the edits directly before and directly behind it, in the end no such equality is left, and a change is reported exactly if there was one |
| `SemanticCleanup.BestSlide` | svslib/diff_match_patch.h:1013-1047 | for any score function: the edit goes as far left as it can, then right as long as it can, and ends at the last of the positions with the best score; both texts stay, and no character moves in or out of the edit |
| `SemanticCleanup.StoreSlide` | svslib/diff_match_patch.h:1048-1063 | storing the position keeps texts and edit length while equalities that became empty are erased, and the cursor makes progress |
| `SemanticCleanup.CleanupSemanticLossless` | svslib/diff_match_patch.h:998-1066 | for any score function: the edit of every lone triple met ends at the last of the best places it can slide to, and the sweep goes on behind it; keeps both texts, neither adds nor saves an edited character, adds no record |
| `SemanticCleanup.ExtractOverlaps` | svslib/diff_match_patch.h:945-988 | every neighbouring deletion and insertion whose longer overlap is half of either text is cut around it, forwards or backwards, and no other; exactly twice these overlaps are saved; keeps both texts |
| `SemanticCleanup.NothingLeftOver` | svslib/diff_match_patch.h:945-988 | of a merged list, no deletion and insertion with such an overlap are left next to each other |
| `SemanticCleanup.CleanupSemantic` | svslib/diff_match_patch.h:870-989 | small equalities are dropped until none is left, the list is merged if there was one, lone edits slide to their best places, and overlaps are cut out, in this order; keeps both texts, and ends; a tidy list without small equalities stays as it is |
| `EfficiencyCleanup.NoCandidate` | svslib/diff_match_patch.h:1160-1171 | an equality that is no candidate never becomes cheap, whatever edits follow: why the code may forget it and all before it |
| `EfficiencyCleanup.ScanGoesOn` | svslib/diff_match_patch.h:1200-1203 | if both kinds of edit stood before the equality that was split, the equality before it cannot become cheap by the split: why the code may go on without walking back |
| `EfficiencyCleanup.DropCheapEqualities` | svslib/diff_match_patch.h:1145-1224 | the walk with its four flags and its stack keeps both texts and ends, for every edit cost; every equality it drops is at that moment cheap for the kinds of edit on both sides of it, in the end no such equality is left, although the walk resets flags and stack and skips candidates, and a change is reported exactly if there was one |
| `EfficiencyCleanup.CleanupEfficiency` | svslib/diff_match_patch.h:1141-1229 | keeps both texts, and ends, for every edit cost; the list stays as it is if no equality is cheap; otherwise cheap ones are dropped until none is left, and the list is merged as diff_cleanupMerge does |
| `PatchRecords.OpenIff` | svslib/diff_match_patch.h:1911-1936 | while the records are walked, a patch is open exactly behind an edit that no long equality has followed |
| `PatchRecords.ExactIfNothingDropped` | svslib/diff_match_patch.h:1898-1942 | if no equality inside an open patch is taken for the last record, the records of every patch claim what stands in the source and do what all of its records do |
| `PatchRecords.LostRecordBreaks` | svslib/diff_match_patch.h:1911-1918 | for all lists, margins and places: if the first equality lost inside an open patch is followed by a recorded record of any kind that begins with another character, some patch no longer does what its records do |
| `PatchRecords.TwinIsDropped` | svslib/diff_match_patch.h:1911-1918 | the comparison with the last record is by value: in delete a, keep b, delete c, keep b the first kept b is left out of the open patch |
| `PatchRecords.TwinBreaks` | svslib/diff_match_patch.h:1911-1918 | and then, for every margin, the patch does not do what its records do |
| `PatchRecords.DropMayBeHarmless` | svslib/diff_match_patch.h:1911-1918 | losing a record does not always harm: an input whose patch claims the same text without it and does the same |
| `PatchRecords.OutsideIsHarmless` | svslib/diff_match_patch.h:1911-1918 | an equality equal to the last record is not lost while no patch is open: keep b, insert c, keep b |
| `Patches.AppliesInside` | svslib/diff_match_patch.h:1922-1924 | a patch cut out of a text applies where it was cut, and replaces only its own source by its destination |
| `PatchMaking.ContextWidth` | svslib/diff_match_patch.h:1790-1802 | the padding is a multiple of the margin, one more than the least at which the stretch around the patch occurs once in the text or is as long as the match window allows |
| `PatchMaking.OneWidth` | svslib/diff_match_patch.h:1790-1802 | there is only one such width |
| `PatchMaking.AddContext` | svslib/diff_match_patch.h:1786-1825 | the context on both sides is the least multiple of the margin with which the pattern occurs once or is long enough, and one margin more, cut at the ends of the text; a patch that applies still applies with it, with the same effect, and starts and ends with enough context or at the border of the text |
| `PatchMaking.StepOn` | svslib/diff_match_patch.h:1898-1918 | looking at one record keeps the state of the walk: the open patch holds exactly the records kept so far and counts the characters of both texts |
| `PatchMaking.AddRecord` | svslib/diff_match_patch.h:1886-1918 | one record joins the open patch or opens one, unless it is an equality that no patch takes up; the second text moves on by it |
| `PatchMaking.ClosedApplies` | svslib/diff_match_patch.h:1922-1924 | a closed patch applies at its place to what the records before it made of the source, and leads to what the records up to its end make of it, exactly if its records amount to all of them |
| `PatchMaking.LeadingClosed` | svslib/diff_match_patch.h:1920-1936 | the patches so far lead to the text after the records so far exactly if every closed one amounts to its records; a patch that went wrong is never made good by a later one |
| `PatchMaking.StepClose` | svslib/diff_match_patch.h:1920-1936 | closing a patch at a long equality keeps the state of the walk: the patches so far, with the new one and its context, lead to the text patched so far exactly if each amounts to its records |
| `PatchMaking.PatchMake` | svslib/diff_match_patch.h:1880-1952 | exactly one patch for every long equality that closes one and for a patch open at the end, each of the records kept since with its context; they apply one after the other, each at its exact place, and lead from source to destination, if and only if the records that reach the patches amount to all records (so in particular if none inside an open patch is taken for the last one) |
| `PatchPadding.AddPadding` | svslib/diff_match_patch.h:2081-2134 | the padding is the code units 1 to the margin; every patch is moved by it, and the first one begins and ends with at least as much equal text; padded patches apply to the padded text exactly as the patches applied to the text, one patch for each |
| `PatchSplitting.Fill` | svslib/diff_match_patch.h:2171-2210 | filling a small patch moves whole records and at most one part of a record: what is taken and what is left are together what was there, as much as fits and nothing more, and the rest gets smaller unless the context alone fills the patch |
| `PatchSplitting.TakeOne` | svslib/diff_match_patch.h:2176-2207 | one turn of the filling loop: the first record, or as much of it as fills the window, moves over with its lengths counted, what is left of it stays in front; an insertion goes whole, and so does a big deletion behind nothing but context |
| `PatchSplitting.AddPostcontext` | svslib/diff_match_patch.h:2213-2226 | the context behind joins a trailing equality, or makes a new one, and changes nothing else |
| `PatchSplitting.SplitPatch` | svslib/diff_match_patch.h:2155-2231 | every turn fills a small patch behind the context that the turns before left it, ends it with the margin of the source that follows, and places it where it belongs; the small patches are those of the turns that took an edit; they lead to the same text as the big one, each fits the match window (or is one big deletion), and the loop ends in spite of the context of the old patch being trimmed by the length of the new one |
| `PatchSplitting.SplitMax` | svslib/diff_match_patch.h:2143-2233 | short patches stay, the small patches of each long one take its place, and the list still does the same to the text |
| `PatchApplying.MatchMain` | svslib/diff_match_patch.h:1616-1632 | a pattern that stands at the expected place is found there |
| `PatchApplying.Locate` | svslib/diff_match_patch.h:1999-2017 | source text that stands at the expected place is found there, whole or by both of its ends |
| `PatchApplying.PatchApply` | svslib/diff_match_patch.h:1973-2072 | patches that apply one after the other give exactly the target text through padding, splitting and stripping the padding again; there is one result flag for every small patch of the padded and split list, all of them true, and there is one at least if the texts differ |
| `PatchApplying.RoundTrip` | svslib/diff_match_patch.h:1973-2072 | making patches from a diff and applying them to the source gives the destination with a true flag for every small patch, whenever the records that reach the patches amount to all records, which is when the patches apply at their places at all |
| `TextPatches.PatchMakeTexts` | svslib/diff_match_patch.h:1834-1845 | from two plain texts: the diff, then the semantic and the efficiency clean-up of any list of more than two records, then the patches; they lead from one text to the other if and only if the records of the cleaned list that reach them amount to all records |
| `TextPatches.RoundTripTexts` | svslib/diff_match_patch.h:1834-2072 | from two texts through diff, clean-ups, patches and application to the second text, with all flags true, whenever no record inside a patch is mistaken for the last one |
| `TextPatches.LostFromTexts` | svslib/diff_match_patch.h:1834-1952 | two plain texts that fail, for every margin of at least 3, every edit cost and every behaviour of the clock: abbbbcbbbb and bbbbbbbb |
| `TextCoding.NormalizedIff` | svslib/diff_match_patch.h:2541-2565 | UTF-16 text passes through UTF-32 unchanged exactly if its surrogates are paired |
| `TextCoding.PairedParts` | svslib/diff_match_patch.h:2541-2565 | parts of a text with paired surrogates count as paired, even where the cut goes through a pair |
| `TextCoding.Utf8RoundTrip` | svslib/diff_match_patch.h:2398-2514 | a code point written in UTF-8 is read back as itself and the rest is untouched |
| `TextCoding.UnescapeEncode` | svslib/diff_match_patch.h:2398-2514 | undoing the percent escapes of a coded text gives its UTF-8 form |
| `TextCoding.EncodeSafe` | svslib/diff_match_patch.h:2398-2449 | texts of safe characters are written as they are |
| `TextCoding.DecodeEncode` | svslib/diff_match_patch.h:2398-2514 | coding then decoding gives the text with broken pairs replaced; it gives the text itself exactly if all surrogates are paired |
| `TextCoding.EncodeLength` | svslib/diff_match_patch.h:2398-2449 | a coded text is never shorter, and of equal length only if nothing was escaped: why the code may compare lengths to decide whether to copy |
| `TextCoding.AppendPercentEncoded` | svslib/diff_match_patch.h:2398-2449 | appends the coded form, whichever of the two ways the code takes |
| `TextCoding.UnescapeInPlace` | svslib/diff_match_patch.h:2475-2482 | the first pass replaces escapes by units in the same buffer, and fails exactly on malformed escapes |
| `TextCoding.DecodeUtf8InPlace` | svslib/diff_match_patch.h:2483-2513 | the second pass writes decoded units behind each other without overtaking the reader, and gives what decoding gives |
| `TextCoding.PercentDecode` | svslib/diff_match_patch.h:2474-2514 | decoding in place gives the decoded text, and throws exactly if it has a malformed escape |
| `Numerals.FillDigits` | svslib/diff_match_patch.h:2374-2386 | digits filled in from the right are the decimal digits |
| `Numerals.ToString` | svslib/diff_match_patch.h:2374-2386 | the decimal form of a number, with its sign |
| `Numerals.ToIntDigits` | svslib/diff_match_patch.h:2388-2388 | reading the digits of a number gives the number |
| `DeltaText.ToDelta` | svslib/diff_match_patch.h:1521-1544 | the delta text: one token for every record, counts for what is kept or deleted, coded text for what is inserted |
| `DeltaText.DocumentedDelta` | svslib/diff_match_patch.h:1509-1520 | the example of the description: keep 3 characters, delete 2, insert ing |
| `DeltaText.NextToken` | svslib/diff_match_patch.h:2392-2396 | a token ends at the next delimiter or at the end of the text |
| `DeltaText.FromDelta` | svslib/diff_match_patch.h:1555-1601 | reading token by token gives the records or the error that the grammar of the text gives |
| `DeltaText.DeltaRoundTrip` | svslib/diff_match_patch.h:1521-1601 | for every list, reading its delta against its source text gives the list back exactly if the surrogates of all inserted texts are paired |
| `DeltaText.WellFormedReturns` | svslib/diff_match_patch.h:1521-1601 | if the surrogates of the destination are paired, the list always comes back, even if its records cut through pairs |
| `DeltaText.BrokenPairLost` | svslib/diff_match_patch.h:1521-1601 | a list that does not come back: an insertion of a high surrogate and a letter |
| `PatchHeader.FirstCoord` | svslib/diff_match_patch.h:2272-2276 | the first pair of numbers and the number of characters left, in the unsigned arithmetic of the code |
| `PatchHeader.SecondCoord` | svslib/diff_match_patch.h:2277-2280 | the second pair, including the wrap-around of the count when a line ends early |
| `PatchHeader.ParseHeader` | svslib/diff_match_patch.h:2267-2285 | the hand-written matcher with its unsigned counter accepts exactly the lines of the header pattern, with the same four fields |
| `PatchText.PatchToText` | svslib/diff_match_patch.h:2241-2247 | header and body lines of every patch, with the three forms of a length |
| `PatchText.DocumentedPatch` | svslib/diff_match_patch.h:173-215 | the header of the description, 1-based, and body lines with the signs of a unified diff |
| `PatchText.ParseBody` | svslib/diff_match_patch.h:2310-2337 | the lines up to the next header, read as records, or the error |
| `PatchText.PatchFromText` | svslib/diff_match_patch.h:2257-2343 | reading the text gives the patches or the error that its grammar gives |
| `PatchText.HeaderBack` | svslib/diff_match_patch.h:2287-2308 | a header read back gives the coordinates, and is refused exactly if one of them cannot be printed (a position that comes out negative) |
| `PatchText.PatchRoundTrip` | svslib/diff_match_patch.h:2241-2343 | for every list of patches, reading its text gives the list back exactly if all coordinates are printable and all surrogates are paired |
| `PatchText.WellFormedReturn` | svslib/diff_match_patch.h:2241-2343 | patches that apply one after the other through texts with paired surrogates come back exactly if their coordinates are printable |
| `PatchText.NegativePositionLost` | svslib/diff_match_patch.h:2241-2343 | a patch that does not come back: an insertion at position -1 |
| `Blake3Bits.PopCnt` | svslib/blake3_impl.h:132-143 | counts the one-bits by clearing the lowest one |
| `Blake3Bits.HighestOne` | svslib/blake3_impl.h:102-129 | the position of the top bit of a nonzero 64-bit word, by halving the word |
| `Blake3Bits.RoundDownToPowerOf2` | svslib/blake3_impl.h:147-149 | the largest power of two not above the word, and 1 for 0 |
| `Blake3Bits.MaskIsDivisible` | svslib/blake3.c:542-544 | masking with a power of two less one tests divisibility |
| `Blake3Tree.TreeSplit` | svslib/blake3.c:162-167 | a message cut at a power-of-two number of chunks that covers at least half of it is the parent of the two trees, wherever the cut comes from |
| `Blake3Chunk.ChunkState.FillBuf` | svslib/blake3.c:35-45 | copies what fits behind what is kept; the rest of the block stays zero |
| `Blake3Chunk.ChunkState.Update` | svslib/blake3.c:119-145 | the chunk in progress has taken all of the input, however it is cut: a full buffer is compressed only when more input follows |
| `Blake3Chunk.ChunkState.GetOutput` | svslib/blake3.c:147-152 | the open node of the chunk of section 2.4 of the BLAKE3 specification |
| `Blake3CvLists.PairUpHalves` | svslib/blake3.c:217-250 | one layer of parents keeps the left and the right child of the list, as long as it does not make the root |
| `Blake3CvLists.PairUpRepresents` | svslib/blake3.c:217-250 | one layer of parents still stands for the same tree |
| `Blake3CvLists.Joined` | svslib/blake3.c:304-335 | the values of a full left subtree and those of the right one, side by side, stand for the tree over both |
| `Blake3CvLists.ChunkCvsRepresent` | svslib/blake3.c:173-210 | the values of all chunks side by side stand for the tree |
| `Blake3Subtree.HashOneChunk` | svslib/blake3.c:173-210 | sixteen blocks with the chunk flags are the chaining value of a chunk |
| `Blake3Subtree.HashOneParent` | svslib/blake3.c:217-250 | one block with the parent flag is the chaining value of a parent |
| `Blake3Subtree.HashMany` | svslib/blake3_portable.c:145-160 | every input is hashed into its own place with its own counter, and no other place changes |
| `Blake3Subtree.CompressChunksParallel` | svslib/blake3.c:173-210 | the values of all chunks, the last one partial or not, at their places |
| `Blake3Subtree.CompressParentsParallel` | svslib/blake3.c:217-250 | one layer of parents with the odd value carried over |
| `Blake3Subtree.LeftSubtreeLen` | svslib/blake3.c:162-167 | the length of the left subtree of section 2.1: the most chunks, a power of two, that leave a byte for the right |
| `Blake3Subtree.CompressSubtreeWide` | svslib/blake3.c:269-337 | for every power-of-two SIMD degree the values written stand for the tree, there are never more than the array has room for, and values outside the room are untouched; the right half lands directly behind the left |
| `Blake3Subtree.CompressSubtreeToParentNode` | svslib/blake3.c:350-381 | for every input over one chunk and every degree, exactly the chaining values of the left and of the right child of the tree |
| `Blake3Stack.StrictPopCount` | svslib/blake3.c:415-434 | a stack of strictly falling powers of two has one entry for every one-bit of the chunk count |
| `Blake3Stack.LazyPopCount` | svslib/blake3.c:436-474 | a lazily merged stack has more entries than one-bits exactly if its top two are due for merging |
| `Blake3Stack.AlignedFits` | svslib/blake3.c:513-544 | a power of two dividing the chunk count is no larger than the entry on top, so pushing a subtree of that size keeps the order |
| `Blake3Stack.MergeEntries` | svslib/blake3.c:425-434 | merging the top two, which are then of equal size, leaves entries that are the chaining values of consecutive subtrees |
| `Blake3Stack.RollUp` | svslib/blake3.c:638-644 | rolling one more entry of the stack into the root keeps the open node that of the tree over the bytes it covers |
| `Blake3Hasher.SubtreeLen` | svslib/blake3.c:525-547 | the loop that halves the subtree stops at a power of two of at least one chunk that divides the count so far, and at the largest such |
| `Blake3Hasher.Hasher.MergeCvStack` | svslib/blake3.c:425-434 | never reaches below two entries and leaves a strict stack with one entry per one-bit of the total |
| `Blake3Hasher.Hasher.PushCv` | svslib/blake3.c:468-474 | merges what was due and puts the new subtree on top; the stack never exceeds its 55 entries |
| `Blake3Hasher.Hasher.FinishChunk` | svslib/blake3.c:490-509 | the input first completes the chunk in progress; no byte is lost or taken twice |
| `Blake3Hasher.Hasher.UpdateStep` | svslib/blake3.c:524-571 | one turn of the loop takes an aligned subtree and leaves the stack right; an empty chunk with a stack means at least two entries |
| `Blake3Hasher.Hasher.Update` | svslib/blake3.c:476-583 | after an update the hasher stands for its input so far followed by the new bytes, with all of its invariants |
| `Blake3Hasher.Hasher.RootOutput` | svslib/blake3.c:614-644 | rolling the stack up gives the open root node of the tree over everything hashed |
| `Blake3Hasher.XofMany` | svslib/blake3_dispatch.c:227-248 | whole blocks of output, each with its own counter |
| `Blake3Hasher.OutputRootBytes` | svslib/blake3.c:90-117 | any part of the extendable output of section 2.6, from any position |
| `Blake3Hasher.Hasher.FinalizeSeek` | svslib/blake3.c:604-646 | for any position and length, the output bytes of the root of the tree over everything hashed |
| `Blake3Hasher.Hasher.Reset` | svslib/blake3.c:648-651 | the hasher is as after its initialisation |
| `Blake3Hasher.HashPieces` | svslib/blake3.c:476-646 | a message handed over in any pieces, at any degree, gives the output of the recursive tree over the whole message |
| `Blake3Words.RightRotates` | svslib/blake3_portable.c:4-6 | the two shifts are a rotation to the right, for each of the four distances |
| `Blake3Words.ScheduleFollows` | svslib/blake3_impl.h:90-98 | from each round to the next the schedule applies one permutation, that of round 1; round 0 is in order |
| `Blake3Words.SchedulePermutes` | svslib/blake3_impl.h:90-98 | every round mixes in every message word exactly once |
| `Blake3Words.IvIsRoot` | svslib/blake3_impl.h:86-88 | the words of the initial value are the first 32 bits behind the point of the square roots of the first eight primes |
| `Blake3Words.G` | svslib/blake3_portable.c:8-18 | the quarter round on four places of the state, nothing else changed |
| `Blake3Words.RoundFn` | svslib/blake3_portable.c:20-35 | columns and then diagonals with the scheduled message words: defined by what every quad becomes, in no particular order |
| `Blake3Words.CompressPre` | svslib/blake3_portable.c:37-82 | seven rounds on the start state |
| `Blake3Words.CompressInPlace` | svslib/blake3_portable.c:84-98 | the chaining value of one compression |
| `Blake3Words.CompressXof` | svslib/blake3_portable.c:100-123 | the 64 output bytes of one compression |
| `Blake3Words.LoadStored` | svslib/blake3_impl.h:157-199 | words stored and loaded again are the same words |
| `Blake3Words.HashOne` | svslib/blake3_portable.c:125-143 | a row of blocks, the start flag on the first and the end flag on the last |
| `Blake3Neon.RoundFn4` | svslib/blake3_neon.c:79-193 | all four lanes go through the scalar round, although the instructions of the four quads are interleaved and the additions are in another order |
| `Blake3Neon.TransposeVecs` | svslib/blake3_neon.c:195-209 | two steps of pairwise transposition are a transposition |
| `Blake3Neon.TransposeMsgVecs` | svslib/blake3_neon.c:211-233 | lane i of the message vectors holds the message words of input i |
| `Blake3Neon.LoadCounters4` | svslib/blake3_neon.c:235-244 | the four lanes get the low and the high word of their own counters, counted up or all the same |
| `Blake3Neon.StartVecs` | svslib/blake3_neon.c:235-274 | every lane starts as the scalar state with its own counter, in both counter modes |
| `Blake3Neon.Compress4` | svslib/blake3_neon.c:264-289 | one pass of the block loop compresses every lane |
| `Blake3Neon.HashVecs` | svslib/blake3_neon.c:246-292 | lane i ends with the chaining value of input i |
| `Blake3Neon.Store4` | svslib/blake3_neon.c:294-305 | the last transposition and the eight stores put every output at its place and spoil none written before |
| `Blake3Neon.HashManyNeon` | svslib/blake3_neon.c:342-367 | four at a time and the leftovers by the scalar code: every output is that of its input |
| `Blake3Neon.HashManyPortable` | svslib/blake3_portable.c:145-160 | one at a time: every output is that of its input |
| `Blake3Neon.HashManyAgree` | svslib/blake3_neon.c:342-367 | for every number of inputs and blocks and both counter modes, the four-lane code and the scalar code give the same words |
| `Blake3Lanes.FlagPlaces` | svslib/blake3_impl.h:17-25 | bit i of the flag byte stands for the i-th flag of the enum, for every set of flags, and no other bit is ever set |
| `Blake3Lanes.MaskUnion` | svslib/blake3_impl.h:17-26 | or-ing flag bytes is the union of the flags |
| `Blake3Lanes.WideStartsWithCv` | svslib/blake3_portable.c:84-123 | the first half of an output block is the chaining value of the same compression |
| `Blake3Lanes.HashOneIsWords` | svslib/blake3_portable.c:125-143 | the chaining value the tree asks for is what the word-level code computes, block by block |
| `Blake3Lanes.HashManyOnLanes` | svslib/blake3_neon.c:342-367 | the outputs of the four-lane code, read as chaining values, are those the wide subtree function needs, for chunks and for parents |
| `RingBuffers.RingBuffer.Push` | svslib/filesubsystem.h:100-107 | the oldest element comes out and the new one goes in behind the others; the write position goes around |
| `RingBuffers.RingBuffer.Serialize` | svslib/filesubsystem.h:120-132 | the two pieces together are the contents, oldest first |
| `RollingHash.WindowHash` | svslib/filesubsystem.cpp:365-383 | the hash of a window follows from the hash of everything and the hash of what lies before it, modulo 2^32 |
| `RollingHash.PowerOfK` | svslib/filesubsystem.cpp:132-135 | the multiplier is the power of K, modulo 2^32 |
| `DeltaCommands.ParseSerialize` | svslib/filesubsystem.cpp:272-295 | reading back what was written gives the same commands, raw or as differences modulo 2^32 |
| `DeltaCommands.DecodeSerialized` | svslib/filesubsystem.cpp:272-295 | decoding the written bytes is decoding the commands |
| `Signatures.Signer.Process` | svslib/filesubsystem.cpp:333-356 | the signature so far is that of the bytes so far, block by block, in any pieces |
| `Signatures.Signer.Complete` | svslib/filesubsystem.cpp:211-218 | once the whole file has passed, the signature store is full and is the stored signature of the file |
| `Signatures.RingDigest` | svslib/filesubsystem.cpp:307-314 | hashing the ring in its two pieces is hashing its contents |
| `SignatureIndex.LowerBound` | svslib/filesubsystem.cpp:315-317 | the first place whose key is not less |
| `SignatureIndex.BuildIndex` | svslib/filesubsystem.cpp:114-128 | the map of a stored signature holds every entry under its weak hash, sorted by strong hash |
| `SignatureIndex.Lookup` | svslib/filesubsystem.cpp:304-317 | an entry with both hashes is found exactly if the signature has one |
| `DeltaEncoder.Rolled` | svslib/filesubsystem.cpp:365-383 | the hash rolled from the two ring buffers is the fresh hash of the current window |
| `DeltaEncoder.Encoder.constructor` | svslib/filesubsystem.cpp:109-136 | the encoder starts with the index of the parent and nothing consumed |
| `DeltaEncoder.Encoder.FlushDeltaBuffer` | svslib/filesubsystem.cpp:286-295 | the literal bytes become one command and the decoded output is what it was with them |
| `DeltaEncoder.Encoder.PushDeltaBuffer` | svslib/filesubsystem.cpp:296-301 | decoded output and literal buffer grow by the byte, the buffer never beyond its limit |
| `DeltaEncoder.Encoder.FindBlock` | svslib/filesubsystem.cpp:302-317 | the lookup succeeds exactly if the window is a whole block of the parent, given no collision of the strong hash |
| `DeltaEncoder.Encoder.FindDeltaHash` | svslib/filesubsystem.cpp:302-324 | one copy command is sent, and the window emptied, exactly if the window equals a block of the parent |
| `DeltaEncoder.Encoder.NewestTailIsRight` | svslib/filesubsystem.cpp:365-384 | at every byte: decoded commands, then the literal buffer, then the newest window bytes are exactly what was consumed, so taking the newest bytes at the end would lose nothing for any file |
| `DeltaEncoder.Encoder.Step` | svslib/filesubsystem.cpp:365-384 | one byte keeps all of it: nothing is lost, every window that is a block since the last copy has been copied, and literals are sent only when the buffer is full or a copy follows |
| `DeltaEncoder.Encoder.Finish` | svslib/filesubsystem.cpp:390-403 | what the end of the file writes decodes to the file exactly if the oldest bytes of the ring, as many as the window has, are its newest: for every length of the file |
| `DeltaEncoder.Encoder.Process` | svslib/filesubsystem.cpp:325-404 | any number of bytes at once, none among them; at the end of the file the decode equals the file exactly if its tail survives |
| `DeltaEncoder.Encoder.TailCondition` | svslib/filesubsystem.cpp:394-399 | in terms of the file, and for one shorter than a block of what the ring held at first: the window is empty, or full, or the last block of both together begins as the file ends |
| `DeltaEncoder.TailOfLongFile` | svslib/filesubsystem.h:99-107 | from the length of one block on, what the memory of the ring held at first does not matter |
| `DeltaEncoder.EncodeFile` | svslib/filesubsystem.cpp:325-404 | for every file of any length, every parent and every cutting into pieces: the bytes written decode to the file if and only if its tail survives; they are the commands of an encoder that copies every window it can, counted by the bytes alone, and fills the buffer before it sends a literal that another one follows |
| `DeltaEncoder.SaveTwice` | svslib/filesubsystem.cpp:325-404 | the same with the signature that was collected while the parent was saved |
| `DeltaTails.ParentCopied` | svslib/filesubsystem.cpp:302-324 | the blocks of the parent, one after the other, are all copied |
| `DeltaTails.TailAfterCopy` | svslib/filesubsystem.cpp:390-399 | for all parents, block sizes and files: a tail shorter than a block behind a copy survives exactly if the last block of the file begins with it |
| `DeltaTails.TailLost` | svslib/filesubsystem.cpp:390-399 | for all parents, block sizes and files: one byte behind a copy survives exactly if it equals the second byte of the last block copied |
| `DeltaTails.ShortTail` | svslib/filesubsystem.cpp:390-399 | every file shorter than a block survives exactly if the first contents of the ring happen to continue it |
| `DeltaTails.ShortTailLost` | svslib/filesubsystem.cpp:390-399 | whatever the ring held at first, a file shorter than a block is lost unless it repeats itself at the distance that is missing |
| `DeltaTails.AppendedByteLost` | svslib/filesubsystem.cpp:48-64 | files as they are saved: any file of 602 bytes, kept in blocks of 86, with one byte appended that is not its byte 517; the next version may be a delta, and is lost |
| `DeltaTails.ShortVersionLost` | svslib/filesubsystem.cpp:48-64 | files as they are saved: any file of 30000 bytes, kept in blocks of 601, and a next version of 600 bytes that are not all the same; it may be a delta, and is lost whatever the ring held |
| `MainDat.TilesAppendIff` | svslib/filesubsystem.cpp:535-550 | objects still tile the file after one more exactly if it starts where they ended |
| `MainDat.CheckObject` | svslib/filesubsystem.cpp:535-607 | no message is given exactly if the object starts at the cursor and offset, size, kind and hash are as its row says; the cursor then stands behind it |
| `MainDat.Check` | svslib/filesubsystem.cpp:535-607 | no message over all rows exactly if the objects follow each other from byte 4 and every row tells the truth |
| `MainDat.SoundIsChecked` | svslib/svslib.cpp:154-171 | a sound repository passes the check, whatever stands behind the committed bytes |
| `SaveSession.FileSave.Start` | svslib/filesubsystem.cpp:188-235 | a save begins behind the last byte and keeps all bytes before; the room for the signature is reserved |
| `SaveSession.FileSave.Process` | svslib/filesubsystem.cpp:325-361 | content is appended, the signature sees the bytes unless they come a second time, nothing before the object changes, cut or not |
| `SaveSession.FileSave.Restart` | svslib/filesubsystem.cpp:405-422 | the content is thrown away and the object begins again in raw form |
| `SaveSession.FileSave.FillSignature` | svslib/filesubsystem.cpp:451-460 | the signature goes into its room and nowhere else |
| `SaveSession.FileSave.SignatureFills` | svslib/filesubsystem.cpp:451-460 | the gap begins with the stored signature of the bytes that have passed before a restart, and is filled exactly if all whole blocks of the file were among them |
| `SaveSession.FileSave.Commit` | svslib/filesubsystem.cpp:423-527 | a commit adds a row that describes the object and sets the file size; it takes place exactly if all bytes have come, no write fails and the database accepts the row, and otherwise leaves the database as it was |
| `Repository.SoundIff` | svslib/filesubsystem.cpp:423-527 | a committed object keeps the tiling exactly if nothing uncommitted stood behind the committed size |
| `Repository.SignatureFills` | svslib/filesubsystem.cpp:405-460 | the signature of a written object fills exactly the gap before the content if and only if all whole blocks passed before a restart; if the whole file did, the gap holds the stored signature of the file |
| `Repository.RestartLeavesGap` | svslib/filesubsystem.cpp:405-422 | for all plans: a restart before all whole blocks have passed leaves at least the last entry of the gap unwritten, and one before the first byte all but eight bytes |
| `SaveChoices.RoundedRoot` | svslib/filesubsystem.cpp:49-61 | the integer nearest to the root |
| `SaveChoices.BlocksFit` | svslib/filesubsystem.cpp:49-61 | above the threshold the blocks of a signature, embedded or not, are never longer than the file |
| `SaveChoices.ChoicesFit` | svslib/filesubsystem.cpp:48-64 | whatever the constructor chooses: blocks fit the file if there is a signature, and a delta is only made of a file above the threshold that has a parent |
| `Repository.PlansAreLegal` | svslib/filesubsystem.cpp:48-64 | every plan made of these choices meets what the saves ask for |
| `Repository.RestartAtOnce` | svslib/filesubsystem.cpp:405-460 | a plan the constructor makes for 602 bytes: after a restart before the first byte, 280 of 288 bytes in the gap stay unwritten |
| `Repository.Repository.Save` | svslib/filesubsystem.cpp:188-527 | one save with a cut at any write: it commits exactly if all bytes have come, no write has failed and the database accepts it; committed bytes never change, a failed save leaves the database alone, a commit keeps the tiling if and only if the save started at the committed size, and its object holds flags, parent, the signature of what passed before a restart, and the content |
| `Repository.Repository.SaveAfterCut` | svslib/filesubsystem.cpp:188-527 | a save that commits behind a cut one without a reopening in between leaves bytes of no object in the file, and the check finds them |
| `Repository.Repository.Reopen` | svslib/svslib.cpp:149-191 | reopening for writing throws exactly if the check finds something, never cuts committed bytes, and leaves a sound repository sound |
| `Repository.Repository.Run` | svslib/svslib.cpp:149-191 | after any run of saves that commit, or are cut and followed by a checked writable reopening, objects tile the file, bytes committed at any time are still there, every object committed is written as its plan says, and the check finds nothing; if nothing fails, the objects are those of all plans that were sent whole and accepted, in order; the run ends at the first truncation that fails |
| `DeltaSaves.ReadEmbedded` | svslib/filesubsystem.cpp:137-160 | the signature is read back out of the object of the parent, with its sizes, as it was computed while the parent was saved |
| `DeltaSaves.KindTells` | svslib/filesubsystem.cpp:437-446 | the flags in the header, as the enum numbers them, tell whether the content is compressed, a delta, and behind a signature; no other bit is set |
| `DeltaSaves.VersionIsContent` | svslib/filesubsystem.cpp:437-466 | a reader that knows only the header finds the content behind whatever signature is there, and takes it as it is or as a delta |
| `DeltaSaves.SignatureSize` | svslib/filesubsystem.cpp:49-61 | the size of an embedded signature fits into 32 bits for every file the disk can hold |
| `DeltaSaves.SaveVersion` | svslib/filesubsystem.cpp:48-527 | a next version, from the signature in the parent on disk to the committed object, with the choices of the constructor: it commits exactly if the database accepts it and no write fails, and a reader that goes by size and flags of the header alone finds the version, if it was stored raw or, exactly, if its tail survives |
| `Streams.WriteData` | httplib.h:5926-5934 | everything is written, in order, however little the stream takes at a time; it fails exactly if a write of the stream does |
| `Streams.GetLine` | httplib.h:3990-4028 | a line that fits the limit is read to its end and not a byte further |
| `ChunkedCoding.FromIToHex` | httplib.h:3451-3459 | the hexadecimal digits of a number, lowest digit put in front last |
| `ChunkedCoding.StrToUlHex` | httplib.h:10525-10528 | a written number reads back, unless it does not fit into 32 bits |
| `ChunkedCoding.DataSink.Write` | httplib.h:6044-6068 | one chunk for a write that is not empty, nothing for an empty one, and the loop goes on only after the former; it fails only if the stream does |
| `ChunkedCoding.WriteContentChunked` | httplib.h:6037-6134 | the chunks of all calls up to the one that leaves no data available; it fails exactly if a write of the stream does |
| `ChunkedCoding.WrittenIs` | httplib.h:6037-6134 | for any sequence of writes and then done: one chunk for every write that is not empty, the last chunk, the trailer and the empty line; if a call before the last ends with an empty write, only the chunks up to that call |
| `ChunkedCoding.EmptyWriteStops` | httplib.h:6044-6068 | one call with one empty write: the loop stops and nothing is written, not even the last chunk |
| `ChunkedCoding.ChunkedDecoder.ReadHeader` | httplib.h:10521-10541 | the length line of the next chunk, or the end of the body |
| `ChunkedCoding.ChunkedDecoder.ReadPayload` | httplib.h:10516-10561 | every positive read gives the next bytes of the body and leaves the decoder at the byte behind them, with offset and total of the chunk; at the end it gives 0 and is finished |
| `ChunkedCoding.ReadOn` | httplib.h:10516-10561 | whatever bytes come: each payload is part of a frame that its length line announced and its own line end closes |
| `ChunkedCoding.ReadAll` | httplib.h:10516-10561 | for any read sizes, any fragmentation and anything behind the chunks: with a last chunk, reading to the end succeeds exactly if every chunk length fits into 32 bits, gives the body and leaves what stood behind it; without one, it cannot succeed if nothing follows; and of any bytes whatever, what is read successfully is frames of announced length up to a length of zero, and the content is theirs |
| `ChunkedCoding.RoundTrip` | httplib.h:10516-10561 | writing any sequence of writes in any calls and reading it back gives exactly the written bytes, with trailer and rest left, if and only if every chunk length can be counted in 32 bits and no call before the last ends with an empty write; if one does and the connection ends, reading fails |
| `ChunkedCoding.HugeChunkLost` | httplib.h:10525-10528 | one write of 2^32 - 1 bytes, in whatever pieces it is sent and received, is not read back |
| `Trailers.CheckFieldContent` | httplib.h:7364-7389 | accepts exactly what has visible characters at both ends, and blanks at most in between |
| `Trailers.ParseHeader` | httplib.h:3718-3762 | accepts exactly the lines that are a field name, a colon, and a field value with blanks around it, and the name and value found are the only ones possible |
| `Trailers.ParseTrailers` | httplib.h:3764-3847 | reads exactly the lines up to the empty one, and succeeds exactly if every line is a field, none is too long, and fewer declared fields than the limit stand before each; then it has the declared ones in order |
| `Trailers.LineBack` | httplib.h:6100-6106 | the line a sender writes for a field reads back as that field |
| `Trailers.TrailerRoundTrip` | httplib.h:6087-6109 | a chunked body with a trailer comes back whole: the content, then the declared fields, and nothing behind is touched; it succeeds exactly if the trailer is within the limits of the reader |
| `FormData.DelimiterHeadOnce` | httplib.h:6463-6467 | the delimiter has no self-overlap: its first byte does not come again |
| `FormData.FirstInWindow` | httplib.h:6666-6687 | in a window on the bytes, the first occurrence of a pattern is found if it lies inside and not otherwise |
| `FormData.Buffer.Append` | httplib.h:6689-6705 | the window grows by the data, with what was erased squeezed out and the buffer grown if needed |
| `FormData.Buffer.Find` | httplib.h:6666-6687 | the first occurrence in the window, or its size exactly if there is none |
| `FormData.FormDataParser.StepOpening` | httplib.h:6478-6484 | state 0 keeps what is ahead in step with the bytes to come |
| `FormData.FormDataParser.HeaderLine` | httplib.h:6505-6566 | one header line of state 2 is consumed and folded into what is known of the part |
| `FormData.FormDataParser.ContentGoesOn` | httplib.h:6581-6591 | without a delimiter in the window, all but the last bytes, as many as a delimiter has, are content of the part |
| `FormData.FormDataParser.StepContent` | httplib.h:6571-6593 | content up to the delimiter is delivered to the part announced last |
| `FormData.FormDataParser.StepClosing` | httplib.h:6594-6610 | behind a delimiter: another part, or the end |
| `FormData.PartBehind` | httplib.h:6571-6593 | of any bytes: when a delimiter is found, the header lines and the content since the last one are a part as delivered, with no delimiter inside the content, however it was cut |
| `FormData.BodyJoined` | httplib.h:6781-6795 | the serialised body is the first boundary, the parts with their delimiters, and the closing dashes |
| `FormData.FormDataParser.Parse` | httplib.h:6471-6615 | after any piece the parser stands where the bytes so far leave it, having delivered what they owe; at the end of a body it is finished; and whatever the bytes are, those used up are those of the parts delivered |
| `FormData.ParsePieces` | httplib.h:6471-6615 | for every way of cutting a serialised body into pieces, the same parts with the same contents are delivered, and the body is valid; and any bytes found valid are parts with lines that parse, delivered in order with their contents, from the first boundary to the closing dashes |
| `Ranges.SortByFirst` | httplib.h:6799-6801 | a rearrangement in order of first positions |
| `Ranges.Coalesce` | httplib.h:6796-6850 | the merged ranges cover exactly the same positions, lie inside the content, and are apart from each other if no two ranges were the same |
| `Ranges.RangeError` | httplib.h:6852-6918 | a request is refused exactly if there are too many ranges, one lies outside the content after normalisation, or more than two overlap an earlier one; what is accepted covers exactly the positions asked for |
| `Ranges.AgreesIff` | httplib.h:6866-6897 | for every range the parser lets through: the code serves what section 14.1.2 of RFC 9110 selects, and refuses the rest, exactly if it is not a suffix longer than the content |
| `Ranges.OneOutsideRefuses` | httplib.h:6893-6897 | one range that cannot be satisfied refuses the whole request, whatever the others are |
| `Ranges.LongSuffixRefused` | httplib.h:6878-6897 | the last 500 of 100 bytes can be served by the standard, and are refused |
| `Ranges.MultipartTokens` | httplib.h:6944-6979 | the tokens of all parts in order, each with the field of its own range; the assertions on offsets hold |
| `Ranges.MakeMultipart` | httplib.h:6981-7013 | the bytes built are the parts in order, every stretch within the content, and their number is the length announced before |
| `Ranges.PartOfContent` | httplib.h:6920-6928 | a part holds exactly the bytes of the content from the first position to the last one |
| `Ranges.FieldExample` | httplib.h:6930-6942 | the field for bytes 42 to 1233 of 1234 is the example of section 14.4 of RFC 9110 |
| `RangeResponses.TokensAreBody` | httplib.h:6944-7013 | the bytes built are the multipart body of the parts asked for, one for each range, with its content type, its range field and its stretch of the content |
| `RangeResponses.Respond` | httplib.h:9485-9560 | the answer to a request: refused exactly under the conditions of range_error; otherwise the whole content, one stretch with its field, or the multipart body, of ranges that cover exactly the positions asked for |
| `RangeResponses.ReadParts` | httplib.h:6471-6615 | the multipart parser gets from the answer, in whatever pieces it comes, the stretch of the content of every range, in order |

## Left out

- LineMode.LinesToChars: lines are texts of their own instead of stretches of the original.
- Diffing.DiffMain: with a deadline the length is bounded by what half matches keep, and with the line-level speed-up it is that of the line diff with its runs diffed again; neither is the shortest, nor meant to be.
- SemanticCleanup.BestSlide: the score is an arbitrary function of the two texts at a boundary; its table of character classes is not modelled.
- PatchMaking.PatchMake: the proofs need a margin of at least 1 below 2^15 and a match window larger than two margins; nothing is said about other settings.
- PatchApplying.MatchMain: the fuzzy search is left open; it may return any place or -1.
- PatchApplying.PatchApply: patches that have to be placed by the fuzzy search are not covered; only lists that apply at their exact places.
- PatchApplying.RoundTrip: says nothing about diffs whose patches do not apply at their exact places; the fuzzy search may or may not save them.
- Numerals.ToString: whitespace and digits are the ASCII ones; the locale is not modelled.
- DeltaText.FromDelta: the cursor into the source text is unbounded, so a sum of counts beyond the range of `int` is an error instead of undefined.
- PatchText.PatchFromText: texts longer than the range of `int` are excluded, since the loop compares against an `int`.
- Blake3Subtree.CompressSubtreeWide: chaining values are slots of an array, not offsets into bytes; the join that runs both halves on several threads and the detection of CPU features are not modelled.
- Blake3Hasher.HashPieces: keyed hashing and plain hashing differ in key and flags only, which are parameters; the two-step initialisation for derived keys is not modelled. Counters are unbounded, which is exact below 2^64 bytes.
- Blake3Neon.HashManyNeon: counters are taken modulo 2^32 word by word, as the code does; a counter beyond 2^64 is not distinguished.
- DeltaEncoder.EncodeFile: block sizes and signature sizes stay below the range of `int`, and the strong hash has no collision between a window and a block.
- SaveChoices.RoundedRoot: the root is exact; for files of many terabytes the original rounds a `double`.
- DeltaEncoder.Encoder.Process: bytes arriving after the file is complete throw in the original; here only the result tells it.
- Signatures.Signer.Process: no more bytes than the file has; the original writes beyond the store before it throws.
- SaveSession.FileSave.Process: the same bound; the bytes stored are a parameter, so raw and delta form share it.
- SaveSession.FileSave.Restart: the test whether a restart pays off uses sizes that are not modelled; a restart may happen at any time.
- SaveSession.FileSave.Commit: the table of files and the dates are not modelled, only the table of objects and the file size; whether the database accepts the rows is a parameter.
- Repository.Repository.Reopen: the read-only reopening, which only prints, is not modelled; a truncation that fails is not noticed, as in the original.
- Repository.Repository.Run: ends when a truncation fails, where the original goes on; what the saves after it do is stated by `Repository.Repository.Save`.
- DeltaSaves.SaveVersion: without the zlib stream, and for a parent whose signature is complete; what is stored for the pieces of a delta is counted to the end of the last one.
- TextPatches.PatchMakeTexts: texts whose distinct lines do not fit are excluded, as `Diffing.DiffMain` does not keep them.
- ChunkedCoding.WriteContentChunked: no compression, and the content provider is the list of its calls.
- Trailers.ParseTrailers: which field names are declared and not prohibited, and how a value is percent-decoded, are parameters; a section that the connection cuts short is not modelled.
- Streams.GetLine: the fixed and the growable line buffer are one.
- FormData.ParsePieces: bodies have at least one part, the callbacks accept, and what one header line means is a parameter; that every body is accepted is stated for bodies as they are serialised, with nothing in front or behind; bytes behind the closing line that arrive in a later piece are taken for another part, and what comes of them is not specified.
- RangeResponses.Respond: content in memory without conditional requests; content of a provider is sent by the same ranges but not modelled. The boundary is a parameter, where the original draws it by chance.
- Ranges.Coalesce: only ranges that are normalised and inside the content, as its one caller gives them; ranges that are the same are kept apart by the original, so the result is only separated when no two are.
- The zlib stream, SQLite, Win32 handles and threads: foreign code.
- The choice between raw and delta form by floating-point policy and chance: both are covered.
- The thread pool, HTML output, Levenshtein distance, index mapping of the fuzzy patch branch, and the rest of the HTTP library: they would only add easier members.
