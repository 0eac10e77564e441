# Algorithms of a set of Unix commands, modelled and proved

A small set of C programs, each with an algorithm whose correctness does not show on the surface, as Dafny
programs of the same form: what the C code updates in place is a class or an array here, its loops are loops, its
recursion is recursion, and what it promises is stated about specification functions and proved. Files, tapes and
terminals are sequences of bytes, records, blocks or lines. `dafny verify dfyconfig.toml` checks all of it.

| files | source | main results |
|---|---|---|
| `awk_*` | `src/cmd/awk/b.c` | a compiled expression, run on a text, answers 1 if and only if a word of it occurs there, or slips at its end, just when that is told by words again (`AwkMeaning.MatchText`), through follow positions computed on a tree with parent pointers, a subset construction that leaves the initial positions out of every state, missing transitions that lead to state 0, a fast path for a single first character, and the caret as a pseudo-character; a machine is made if and only if it has no more states than there is room for (`AwkMatch.Makedfa`); and expressions for which that reading of the caret is the strict one |
| `dump_*` | `src/cmd/finc.c`, `src/cmd/frec.c` | a file on a tape written by the one is restored by the other if and only if a condition on the list of requests holds (`DumpTheorem.RoundTrip`); the two agree on where the data begins if and only if a condition on the counts holds (`DumpIndex.AlignedIsAgreement`); recovery over the circular list ends; what finc collects is given block by block (`DumpCollect.CollectedAre`, `DumpOnce.CollectedOnce`) |
| `ed_*` | `src/head/regexp.h` | pattern text to byte code to backtracking match: found if and only if some part of the text matches, leftmost, each repetition as long as may be (`EdSearch.Search`), with what ranges, groups and classes stand for told in plain numbers and characters (`EdBounds.*`, `EdGroups.*`, `EdReading.*`) |
| `join_*`, `strings` | `src/cmd/join.c` | the merge that seeks backwards prints what nested loops print (`JoinMerge.Joiner.Join`, `JoinSpec.Task.JoinedIsJoin`) |
| `dag_*` | `src/cmd/cflow/dag.c`, `src/cmd/cflow/flip.c` | one node for each name, lists without duplicates, counts of references, and from any input an outline that expands what the names at the top lead to, once, and in the order in which they are first met (`DagRun.Run`, `DagSaid.SaidIs`); what the reader takes for the names on a line is given exactly (`DagLines.EnteredAreWords`) |
| `bfs_lines` | `src/cmd/bfs/bfs.c` | any sequence of line requests is answered right from an index of lengths, a cached block and incremental offsets |
| `tar_lookup` | `src/cmd/tar.c` | the binary search over lines of varying length finds what a scan would, but for one case that is given exactly (`TarLookup.Bsrch`) |
| `col_page` | `src/cmd/col.c` | a ring of half-lines is a sheet of paper: nothing is lost, doubled or out of order, and what is on a line is what was last put there (`ColPage.SheetPrinted`) |
| `acct_*` | `src/cmd/acct/acctcms.c` | the probing table is a map as long as there is room; lumping and squeezing conserve every counter; each name has the sums of its records (`AcctCms.Summary`) |
| `merge_*` | `src/cmd/acct/acctmerg.c` | the merge of sorted files sums every key once, counter by counter (`MergeFiles.Acctmerg`); the totals hold for unsorted ones too |
| `tab_*` | `src/cmd/newform.c` | contraction to tabs in place, and expansion as its inverse, for every table of stops; both leave every character in its column (`TabColumns.LinesKeepColumns`) |
| `cpio_*` | `src/cmd/cpio/cpio.c` | an archive, written and read back in either format, with short reads, is the same files (`CpioArchive.RoundTrip`), and every field of it stands where it should (`CpioLayout.ArchiveLayout`) |
| `cal_page` | `src/cmd/cal.c` | the weekday formula is the count of days, and each day is printed in its weekday's column |
| `tek_points` | `src/cmd/4014.c` | shortened plot coordinates are put together again by the terminal |
| `arith` | | products and quotients by a variable |

Things about the programs that the proofs brought out, and that the model keeps as they are:

- finc puts a block of its index whenever that is full and once more at the end; frec reads as many as the count
  needs. The two differ just when the blocks of the index fill the last tape record exactly, and frec then takes
  index blocks for data. `DumpIndex.AlignedIsAgreement` gives the condition, `DumpIndex.MisalignedDump` a dump of
  2400 blocks for which it fails.
- frec counts down a file's size only at direct blocks that are there, so a file that ends in a direct block which is
  not full must have no hole before that: `DumpPlan.DirectCounts`, in both directions, and
  `DumpLost.HoleBeforeLast` for a file with such a hole.
- frec stops at the first request whose block of the inode list is not on the tape; all later requests are lost, even
  of files that are there. `DumpTheorem.RoundTrip` says for which requests that is, and `DumpLost.LostFile` is a
  device, a selection and a list of requests for which it happens.
- finc's `g_bsize` and the constant by which it steps through pointer blocks are taken to agree.
- frec reads the block list at index -1 when the first search after a rewind is compared with the current block; the
  value found there is taken to be arbitrary.
- awk's compiler treats an empty character class as matching the empty word, and everything after it is consistent
  with that. A match feeds the terminating NUL to the machine, where dots are taken on it too once there is a
  transition on it. `AwkMeaning.MatchText` says exactly when that matters: when before the NUL a word can go on with a
  dollar and another end with any one character. It never does without dots and negated classes
  (`AwkDollar.ListsNeverSlip`), and finds nothing that does not occur anyhow where every word can end after each of
  its dollars (`AwkMeaning.DollarsLastSearch`); `AwkMeaning.DollarDotDeparts` is an expression and a text for which it
  does.
- With a single transition in the state where it starts, on the NUL and to a state that is not final, a match would go
  on behind the text. `AwkMatch.Stops` says that this is not so of a table, and `AwkMeaning.StopsUnless` for exactly
  which expressions it is not; `AwkMeaning.DollarRunsOn` shows it of `$b`.
- The dot and negated classes consume the caret's pseudo-character where the machine has a transition for it:
  `AwkCaret.CaretDotDeparts` is an expression that this makes match too much, and
  `AwkCaret.MatchReadsCaretsStrictly` names expressions for which it makes no difference.
- cpio's look at the first header puts the bytes back by taking the buffer for full. `CpioStream.Reader.Peek` says
  exactly when the stream is then as it was, and `CpioStream.FirstRecord` that for a first read longer than the
  header it is when that was a full record; `CpioStream.ShortFirst` is one that was not.
- tar's search reads its window with what an earlier read has left behind the end of the file. That can make it find
  a name that is not there, at the end of the file, in just one case: `TarLookup.Misled`, with `TarLookup.AbsentFound`
  for an example.
- awk's test for room lets one state through for which its array has none, and so does the model, whose array has it.
- dag's reader puts the NUL behind a name only after it has entered it, so that each string it enters runs to the end
  of the line. `DagLines.EnteredAreWords` says exactly for which texts these are the names on the line, and
  `DagLines.BAndC` is a line, `a : b c`, for which they are not. Of lines as the programs write them that make its
  input, with one name behind the colon, it reads just what they say (`DagRead.InputIsHeard`). For the inverted
  listing flip leaves the blank in front of a colon behind the name, and dag takes that for another name
  (`DagLines.FlippedEntered`).
- newform's expansion runs past the end of its table of stops on a long line, into whatever stands behind it. For
  lines that contraction has made this does no harm, whatever is there: `TabStops.RoundTrip` asks nothing of the
  table, not even that the stops ascend.
- col never stores a last line that does not end; what has been typed there since it was last left is lost.

## Model

| member | source | states |
|---|---|---|
| `AwkRegex.NullableIsEmptyWord` | src/cmd/awk/b.c:184-216 | whether an expression matches the empty word, as first computes it, is exactly membership of the empty word in its language |
| `AwkRegex.NumberKeepsLanguage` | src/cmd/awk/b.c:68-91 | numbering the leaves does not change the language |
| `AwkRegex.FirstSound` | src/cmd/awk/b.c:184-216 | every word read from a first position splits into a non-empty word of the expression and what may follow it |
| `AwkRegex.FirstComplete` | src/cmd/awk/b.c:184-216 | conversely, every non-empty word of the expression is read from one of its first positions |
| `AwkRegex.RunIsFrom` | src/cmd/awk/b.c:218-251 | following positions up to the end marker reads exactly the words that the position and its place in the tree denote |
| `AwkRegex.PositionsReadTheLanguage` | src/cmd/awk/b.c:152-251 | the follow-position automaton accepts exactly the language of the expression |
| `AwkWords.RepetitionWords` | src/cmd/awk/b.c:184-251 | a star stands for any number of words of its expression one after the other, a plus for one or more, a question mark for one or none |
| `AwkWords.OrdinaryText` | src/cmd/awk/awk.def:125 | texts of the characters from the blank to the tilde, and of tabs, may be searched; a dot stands for each of these characters, a negated class for those that are not in it |
| `AwkWords.LeafWords` | src/cmd/awk/b.c:529-541 | a leaf stands for one character and nothing longer or shorter |
| `AwkTree.EnteredPair` | src/cmd/awk/b.c:78-85 | two entered trees hang together below one node, parents and positions included |
| `AwkCompiler.Marks.MarkUnless` | src/cmd/awk/b.c:189-192 | marking a position adds it to the set and to the count once |
| `AwkCompiler.Marks.Notin` | src/cmd/awk/b.c:262-278 | the set under construction is missing from the remembered ones, or prev is a place it is at |
| `AwkCompiler.Marks.Add` | src/cmd/awk/b.c:280-294 | remembers the set: its size, then its members in ascending order |
| `AwkCompiler.Compiler.Penter` | src/cmd/awk/b.c:68-91 | parents are entered and the leaves numbered from left to right, as the numbered expression has them |
| `AwkCompiler.Compiler.First` | src/cmd/awk/b.c:184-216 | the recursive walk adds exactly the first positions and reports exactly nullability |
| `AwkCompiler.Compiler.Follow` | src/cmd/awk/b.c:218-251 | the walk up the parents adds exactly the positions that can follow |
| `AwkCompiler.Compiler.Cfoll` | src/cmd/awk/b.c:152-182 | afterwards every leaf has its own follow set remembered, shared or new |
| `AwkSearch.AcceptReachReads` | src/cmd/awk/b.c:296-513 | what the machine has reached after a word reads v exactly when v completes a word of the expression begun somewhere before |
| `AwkSearch.AcceptReachFinal` | src/cmd/awk/b.c:296-513 | the end marker is reached exactly when some word of the expression ends there |
| `AwkSearch.ReachPlain` | src/cmd/awk/b.c:345-400 | a machine that forgets everything on a missing transition still agrees with the leaves on all characters but NUL and the caret |
| `AwkSearch.SearchFindsOccurrences` | src/cmd/awk/b.c:515-543 | the machine passes through the end marker exactly when a word occurs in what a match reads or the machine slips at the NUL, where a transition for a dollar takes a dot or a negated class along |
| `AwkMatch.WholeFollows` | src/cmd/awk/b.c:53-61 | the dot-star in front changes no other follow set, and is followed by itself and the initial positions |
| `AwkDfa.NextState` | src/cmd/awk/b.c:434-460 | the set of next positions, without the initial ones, which are left out of every state |
| `AwkStates.NextIsState` | src/cmd/awk/b.c:434-460 | what a transition of a state that is not final leads to is itself reached by a way through the machine |
| `AwkStates.CompleteCounts` | src/cmd/awk/b.c:333-485 | a list of different states that has the first, and with each all that its transitions lead to, has every one there is |
| `AwkStates.StatesBound` | src/cmd/awk/b.c:296-513 | there are never more states than sets of positions and end marker |
| `AwkDfa.Transition` | src/cmd/awk/b.c:434-485 | one transition: the state it leads to stands for the right set, an old state if one has that set; it fails exactly when the set is new and there is no room for it, and then the machine has more states than there is room for |
| `AwkDfa.LookupFinds` | src/cmd/awk/b.c:529-541 | scanning the transitions from the last to the first finds the one for the character, or ends at the default |
| `AwkDfa.Cgotofn` | src/cmd/awk/b.c:296-513 | the subset construction: the table works the search automaton of the expression, and the start state has read the caret if it can; there is a row for each state there is, and no table if and only if there are more of them than room |
| `AwkMatch.LookupSteps` | src/cmd/awk/b.c:533-541 | looking a character up leads to the state that, with the initial positions, holds exactly what the automaton reaches |
| `AwkMatch.Advance` | src/cmd/awk/b.c:533-543 | the main loop of match keeps that relation and gives its verdict at a final state or after the NUL |
| `AwkMatch.Skip` | src/cmd/awk/b.c:522-532 | the fast test for a single first character skips nothing that could begin a match; a single transition on the NUL must lead to a final state |
| `AwkMatch.Match` | src/cmd/awk/b.c:515-543 | 1 exactly when a word of the expression occurs in the text, NUL included, or the machine slips there |
| `AwkMatch.Makedfa` | src/cmd/awk/b.c:49-66 | the whole compilation, from a bare tree to a machine for its expression, with as many rows as the machine has states; none if and only if those are more than the test for room lets through |
| `AwkMeaning.HatFirstIsInitial` | src/cmd/awk/b.c:508-512 | the machine starts behind the caret exactly when a word can begin with one |
| `AwkMeaning.DollarLastIsFollow` | src/cmd/awk/b.c:218-251 | every word can end right after each of its dollars exactly when the end marker is in all their follow sets |
| `AwkDollar.SlipsIs` | src/cmd/awk/b.c:434-460 | what the machine holds before the NUL makes it slip exactly when a word begun in the text can go on with a dollar there and another end with a character that only dots and negated classes consume |
| `AwkDollar.ListsNeverSlip` | src/cmd/awk/b.c:434-460 | an expression without dots and negated classes never slips |
| `AwkMeaning.MatchText` | src/cmd/awk/b.c:49-543 | for every expression and text: compiled and run, the answer is 1 if and only if a word of the expression occurs, with the caret before the first character and NUL after the last, or, before the NUL, a word can go on with a dollar and another end with any one character |
| `AwkMeaning.DollarsLastSearch` | src/cmd/awk/b.c:434-543 | where every word can end after each of its dollars, slipping finds nothing that does not occur, and the fast test never leads past the end of the text |
| `AwkMeaning.StopsUnless` | src/cmd/awk/b.c:515-532 | a compiled machine would go on behind the text exactly when words of the expression can begin with a dollar and with nothing else, and none is a dollar or any single character or empty |
| `AwkMeaning.DollarRunsOn` | src/cmd/awk/b.c:522-532 | $b is such an expression |
| `AwkMeaning.DollarDotDeparts` | src/cmd/awk/b.c:434-460 | ($b\|.) is an expression for which slipping matters: the machine finds it in the empty text, where no word of it occurs |
| `AwkCaret.MatchReadsCaretsStrictly` | src/cmd/awk/b.c:508-541 | where no word can begin with the caret, or only a caret leaf can begin with it, or the caret alone or nothing is a word, that is the strict reading, in which dots and negated classes never consume the caret |
| `AwkCaret.CaretDotDeparts` | src/cmd/awk/b.c:508-541 | (^a\|.b) is an expression for which it is not: it finds a b at the beginning of a text |
| `DumpDisk.CountIsSize` | src/cmd/frec.c:425-451 | byte t of logical block j is in the file exactly when it is among those counted for that block |
| `DumpLayout.InodeBytes` | src/uts/m68k/sys/ino.h:13-24 | an inode takes 64 bytes: the mode in the first two, the size in four from the ninth, thirteen addresses of three bytes from the thirteenth, the times in the last twelve, highest bytes first |
| `DumpLayout.DirectBlock` | src/cmd/frec.c:682-775 | the first ten blocks of a file are named by its inode |
| `DumpLayout.SingleBlock` | src/cmd/frec.c:682-775 | the first blocks behind the direct ones are named by the entries of the block that the eleventh address names |
| `DumpLayout.DoubleBlock` | src/cmd/frec.c:682-775 | those behind them by the entries of the blocks that are named by those of the block of the twelfth address |
| `DumpLayout.NoMoreBlocks` | src/cmd/frec.c:682-775 | there are no others in a file without a triple indirect block |
| `DumpLayout.ByteOfFile` | src/cmd/frec.c:425-451 | where each byte of a file stands on the device, and which offsets are holes |
| `DumpTape.Writer.Putblk` | src/cmd/finc.c:438-458 | blocks fill the record one after the other; a full record is written |
| `DumpTape.Writer.Flshbuf` | src/cmd/finc.c:476-481 | the buffer is written whatever it holds |
| `DumpTape.Reader.Getblk` | src/cmd/frec.c:922-938 | the next block of the section; it fails only at the end of the tape |
| `DumpIndex.AlignedIsAgreement` | src/cmd/finc.c:487-506 | frec begins to read the data where finc began to write it if and only if the index is aligned; otherwise it begins too early |
| `DumpIndex.MisalignedDump` | src/cmd/finc.c:487-506 | a dump of 2400 blocks, 256 longs to a block and ten blocks to a record, is not aligned |
| `DumpIndex.Indxput` | src/cmd/finc.c:513-539 | one entry goes into the slot, which is put when it is full |
| `DumpIndex.WriteIndex` | src/cmd/finc.c:487-506 | the index holds every block number in order and takes a known number of records |
| `DumpIndex.CopyBlocks` | src/cmd/finc.c:289-323 | the blocks follow in the order of the list |
| `DumpIndex.ReadIndex` | src/cmd/frec.c:650-680 | frec gets back the numbers as they were entered, and stands at a known record; it fails only where the tape ends |
| `DumpCollect.Finc.Addblk` | src/cmd/finc.c:753-765 | a number is appended, and it is recorded whether the list is now longer than its limit |
| `DumpCollect.Finc.Addindb` | src/cmd/finc.c:767-785 | the three indirect numbers are kept for later and their blocks collected |
| `DumpCollect.Finc.Saveblks` | src/cmd/finc.c:729-751 | of an inode in use and with a size, all addresses that are not zero are collected, and the last three are kept for later; of others nothing |
| `DumpCollect.Finc.Ilist` | src/cmd/finc.c:395-431 | the inode list: each of its blocks with a selected inode, and what those inodes name |
| `DumpCollect.Finc.Ptrblk` | src/cmd/finc.c:586-625 | a pointer block gives its entries, each followed by all below it |
| `DumpCollect.Finc.Indir` | src/cmd/finc.c:547-581 | all blocks below the indirect ones are collected |
| `DumpCollect.CollectedAre` | src/cmd/finc.c:395-625 | a block is collected if and only if it is 0 or 1, or in the inode list and has an inode there that is wanted, or such an inode has a size and the block is one of its thirteen addresses that is not zero, or is reached from the last three over one, two and three levels of pointer blocks |
| `DumpOnce.CollectedOnce` | src/cmd/finc.c:395-625 | each number in the list is named at a place of its own, by an address of a wanted inode, or an entry of a pointer block below one |
| `DumpOnce.ListedOnce` | src/cmd/finc.c:395-625 | where no two such places name the same block, no block is in the list twice |
| `DumpCollect.Finc.Choose` | src/cmd/finc.c:254-273 | the list ascends, and a block is in it if and only if it is one of the first two, a block of the inode list with an inode in use that is wanted and is not the first of all, or owned by such an inode; limits are exceeded exactly when it is too long |
| `DumpCollect.SortMembers` | src/cmd/finc.c:254-283 | sorting keeps every number with its multiplicity |
| `DumpList.Pending.Seek` | src/cmd/frec.c:886-907 | the first node whose block is not below the one given, or the head |
| `DumpList.Pending.Addnod` | src/cmd/frec.c:886-907 | the list stays circular, doubly linked and sorted, with the item before the first whose block is not smaller |
| `DumpList.Pending.Delnode` | src/cmd/frec.c:910-920 | the node is out, all others are linked as before, and the next one is returned |
| `DumpPlan.RemainingIs` | src/cmd/frec.c:700-745 | the bytes that are taken to be left when a direct block is come to |
| `DumpPlan.DirectCounts` | src/cmd/frec.c:700-745 | every direct block gets its right number of bytes if and only if a file that ends in a direct block which is not full has no hole before that |
| `DumpLost.HoleBeforeLast` | src/cmd/frec.c:700-745 | a file of 65 bytes with a hole and then a block of which one byte is its own: frec counts 64 for that block |
| `DumpPlan.ChildrenApart` | src/cmd/frec.c:453-504 | what different entries of a pointer block stand for does not overlap |
| `DumpPlan.ChildCovers` | src/cmd/frec.c:453-504 | every block below a pointer item is below one of its entries |
| `DumpPlan.WriteSound` | src/cmd/frec.c:425-451 | writing a data item writes bytes of the file only, each at its own offset |
| `DumpPlan.SettledIsRecovered` | src/cmd/frec.c:329-357 | when nothing is pending and nothing is missing, a file has all its bytes and no others |
| `DumpExpand.ExpandDone` | src/cmd/frec.c:453-504 | a pointer item replaced by its children leaves a plan that weighs less, which is why recovery ends |
| `DumpRoots.RootedIsPlan` | src/cmd/frec.c:682-775 | the items made from the inodes account for every block of their files, without overlap |
| `DumpRecover.Frec.Newtp` | src/cmd/frec.c:553-608 | after mounting the tape again, its index is read and the next record is the first of the data |
| `DumpRecover.Frec.Find` | src/cmd/frec.c:390-415 | reads on to the block if it is in the index, rewinding only when it may lie behind |
| `DumpRecover.Frec.Datablk` | src/cmd/frec.c:425-451 | the bytes of the block that are in the file stand at their own offsets in the recovered file; all its other bytes, and all other files, are as before |
| `DumpRecover.Frec.Ptrblk` | src/cmd/frec.c:453-504 | an item for every block pointed to, up to the last block of the file |
| `DumpRecover.Frec.Frecover` | src/cmd/frec.c:390-423 | what the item stands for is written or pending in smaller items, or its block is not on the tape |
| `DumpRecover.Frec.Recover` | src/cmd/frec.c:329-357 | the rounds over the list end, with the list empty and every file sound |
| `DumpRecover.Frec.Saveblks` | src/cmd/frec.c:682-775 | an item for each block that the inode names |
| `DumpRecover.Frec.ScanBlock` | src/cmd/frec.c:300-325 | the requests for the inodes of one block are taken up |
| `DumpRecover.Frec.Super` | src/cmd/frec.c:231-283 | the boot block is skipped and the super block read |
| `DumpRecover.Frec.Ilist` | src/cmd/frec.c:285-327 | the requests are taken up in order, up to the first whose inode is not on the tape |
| `DumpRecover.Frec.Run` | src/cmd/frec.c:139-205 | every request up to that one is recovered; nothing but what the files contain is written; all requests from that one on get no bytes at all |
| `DumpTheorem.ChosenCollected` | src/cmd/finc.c:395-431 | all addresses of a chosen file, all blocks below them and its block of the inode list are collected |
| `DumpTheorem.LegitCollected` | src/cmd/finc.c:547-625 | every block that frec can ask for is in the list that finc dumps |
| `DumpTheorem.ChosenWhole` | src/cmd/frec.c:390-423 | of a chosen file no block that frec will look for is missing from the tape |
| `DumpTheorem.ReachedIsMet` | src/cmd/frec.c:285-327 | frec takes up just those requests for which, and before which, every block of the inode list was dumped |
| `DumpTheorem.Datacopy` | src/cmd/finc.c:289-323 | the tape holds the index and then the blocks, in records of one size |
| `DumpTheorem.RoundTrip` | src/cmd/frec.c:139-205 | finc and then frec, for every selection and every list of requests: a file that was chosen comes back byte for byte if and only if the blocks of the inode list of its request and of all before it were dumped; from the first request on for which that fails nothing comes back; whatever is written is what the files contain |
| `DumpLost.LostFile` | src/cmd/frec.c:285-327 | a file that is dumped and not given back: asked for behind a request for an inode whose block was not dumped it is lost, asked for alone it is reached |
| `EdPattern.BestIsMatch` | src/head/regexp.h:257-403 | the greedy choice succeeds exactly when some match exists, and is one |
| `EdPattern.BestDownIsFarthest` | src/head/regexp.h:392-399 | of the ends of a repetition the one taken is the farthest from which the rest matches |
| `EdBounds.RangeCounts` | src/head/regexp.h:302-347 | a range matches a part of the text if and only if that is made up of such characters and they are no fewer than its lower bound and no more than its upper one |
| `EdBounds.RangeLeast` | src/head/regexp.h:405-411 | with an open bound, up to 20000 more than the lower one where characters are unsigned, and up to 255 elsewhere |
| `EdBounds.StarCounts` | src/head/regexp.h:373-390 | a star matches any number of such characters |
| `EdBounds.RangeToEnd` | src/head/regexp.h:268-311 | a range and the end of the text: from some place on there are only such characters, in a number between the bounds |
| `EdBounds.CountedIs` | src/head/regexp.h:257-411 | a pattern that ends in a range: what is in front of that matches up to some place, and behind it are as many characters as the bounds allow |
| `EdGroups.GroupTwice` | src/head/regexp.h:294-357 | a group and a reference to it right behind match a text that the group matches, followed by the same text once more |
| `EdCode.BitmapBit` | src/head/regexp.h:287-293 | the bit for a character says whether it is in the class |
| `EdCode.FitsHits` | src/head/regexp.h:268-293 | the test on the byte code is the meaning of the unit |
| `EdCode.EncodeIsCodes` | src/head/regexp.h:257-403 | the code of a pattern is that of its items one after the other, and the end |
| `EdText.ElementsLocal` | src/head/regexp.h:117-132 | reading a class does not depend on what comes after it |
| `EdText.ElemsMeaning` | src/head/regexp.h:117-132 | a class of characters and ranges stands for their union |
| `EdReading.Spelled` | src/head/regexp.h:66-222 | how each part of a pattern is written, character by character |
| `EdReading.Themselves` | src/head/regexp.h:66-222 | which characters stand for themselves, and which do behind a backslash |
| `EdReading.NumberIs` | src/head/regexp.h:168-177 | numbers are decimal, with the first digit of the greatest weight |
| `EdReading.DigitsAre` | src/head/regexp.h:168-177 | just the texts of decimal digits are numbers |
| `EdReading.ClassMeans` | src/head/regexp.h:102-141 | a class stands for the characters of its elements, a negated one for all others but NUL |
| `EdReading.ElemIs` | src/head/regexp.h:117-132 | an element is a character, or two with a dash between, which stand for all from the one to the other; where dashes, brackets, newlines and NULs may not be |
| `EdReading.PartBuilt` | src/head/regexp.h:66-222 | what a part that stands for one character makes of a pattern, by itself, with a star and with each kind of range |
| `EdReading.StarBuilt` | src/head/regexp.h:90-100 | a star is itself at the beginning of a pattern or of a group and behind one, and changes no repetition; a dollar is the end |
| `EdReading.GroupsBuilt` | src/head/regexp.h:146-160 | groups are numbered by how many have been opened, a closing needs just one that is open, and a reference one that is closed |
| `EdBuild.FoldSound` | src/head/regexp.h:66-222 | what the tokens of a pattern build is well formed: groups open once, close once, and are referred to after that |
| `EdEmit.EmittedIsCode` | src/head/regexp.h:66-222 | the bytes that a token adds, or the change it makes to the last operation, are the code of what it builds |
| `EdCompile.Compiler.ReadElements` | src/head/regexp.h:117-132 | the bits set are those of the characters and ranges in the class |
| `EdCompile.Compiler.Complement` | src/head/regexp.h:133-137 | a negated class has all other bits, but never that of NUL |
| `EdCompile.Compiler.ReadClass` | src/head/regexp.h:102-141 | a class is read up to its bracket, and its 17 bytes are added |
| `EdCompile.Compiler.ReadNumber` | src/head/regexp.h:168-177 | the number of a range in decimal, with its errors |
| `EdCompile.Compiler.ReadRange` | src/head/regexp.h:162-196 | one, two or one open bound; too large, out of order or badly ended ones are errors |
| `EdCompile.Compiler.ReadGroup` | src/head/regexp.h:146-160 | groups are numbered as they open, and must close |
| `EdCompile.Compiler.ReadEscape` | src/head/regexp.h:143-212 | what comes after a backslash |
| `EdCompile.Compiler.ReadToken` | src/head/regexp.h:66-222 | one token is read and coded, or the pattern ends |
| `EdCompile.Compiler.Compile` | src/head/regexp.h:34-223 | when compilation goes well the text was a pattern and the code is that of its items; and it goes well for every pattern, ended by the delimiter or, for others than sed, by the line |
| `EdMatch.BestAgrees` | src/head/regexp.h:294-300 | only the groups met so far count, so what an abandoned attempt left behind does no harm |
| `EdMatch.Matcher.SkipAll` | src/head/regexp.h:373-390 | steps over all that fits, and one more |
| `EdMatch.Matcher.Getrnge` | src/head/regexp.h:405-411 | the bounds of a range, as the code has them, and what an open one stands for |
| `EdMatch.Matcher.SkipRange` | src/head/regexp.h:302-347 | a bounded repetition; fails where there are too few |
| `EdMatch.Matcher.Ecmp` | src/head/regexp.h:349-357 | whether the text of a group comes again |
| `EdMatch.Matcher.Advance` | src/head/regexp.h:257-403 | running the code finds the greedy match, or fails exactly when there is none |
| `EdMatch.Matcher.TryDown` | src/head/regexp.h:392-399 | the ends of a repetition are tried from the farthest down |
| `EdMatch.Matcher.FirstMisses` | src/head/regexp.h:234-246 | where the first character is not the one the pattern begins with, no match begins |
| `EdMatch.Matcher.Step` | src/head/regexp.h:225-255 | the leftmost match is found if there is one, by the fast path as by the general loop |
| `EdSearch.Search` | src/head/regexp.h:34-403 | for every pattern and text: found if and only if some part of the text matches; the match is leftmost and every repetition in turn as long as may be; a pattern that ends in a range is found if and only if, behind something that matches what is in front, there are characters for it in a number between its bounds |
| `JoinSpec.Task.Same` | src/cmd/join.c:115-148 | lines that have a partner in common compare alike with all others |
| `JoinSpec.Task.BetweenSomewhere` | src/cmd/join.c:115-123 | a line of file 2 lies between two lines of file 1 exactly when it has no partner |
| `JoinSpec.Task.JoinedIsJoin` | src/cmd/join.c:112-148 | the nested loops give every pair with equal keys, and the unpaired lines asked for, each once, and nothing else |
| `JoinSpec.Task.JoinedOrdered` | src/cmd/join.c:112-148 | from sorted files what is printed ascends, by key, then by the line of file 1 and by that of file 2 |
| `JoinMerge.Joiner.JoinGroup` | src/cmd/join.c:125-131 | the first line of a group against all its partners |
| `JoinMerge.Joiner.JoinRest` | src/cmd/join.c:132-147 | each later line of the group against the partners again, with file 2 set back each time; this ends |
| `JoinMerge.Joiner.Join` | src/cmd/join.c:112-148 | on sorted files the merge prints what the nested loops print, in the same order |
| `Strings.CmpTransitive` | src/cmd/join.c:226-230 | the order of keys is transitive |
| `Strings.CmpIsOrder` | src/cmd/join.c:226-230 | it is that of the first character in which they differ, with a beginning before what it begins |
| `DagGraph.Node.FindLink` | src/cmd/cflow/dag.c:228-238 | whether the node is among the successors, or where it goes |
| `DagGraph.Node.Grow` | src/cmd/cflow/dag.c:239-246 | a new chunk at the end of the chain |
| `DagGraph.Node.Addlink` | src/cmd/cflow/dag.c:219-252 | the list of successors gains the node at its end unless it has it; every count stays the number of other nodes that refer to its node |
| `DagGraph.CountedMore` | src/cmd/cflow/dag.c:247-251 | a link more: the counts are again the numbers of other nodes that refer to each |
| `DagTree.HasIs` | src/cmd/cflow/dag.c:188-197 | in a search tree a name is found exactly when a node has it |
| `DagTree.LinkedIn` | src/cmd/cflow/dag.c:198-204 | a node linked in where the search ended keeps the tree ordered |
| `DagTree.Dag.Find` | src/cmd/cflow/dag.c:188-197 | the node of the name, or the place where the search ends |
| `DagTree.Dag.Attach` | src/cmd/cflow/dag.c:198-204 | the new node is in the tree and no other link has changed |
| `DagTree.Dag.Append` | src/cmd/cflow/dag.c:205-212 | the new node is the last of the list |
| `DagTree.Dag.Getnode` | src/cmd/cflow/dag.c:181-217 | one node for each name, whatever the order of the calls; counts remain the numbers of nodes that refer to each |
| `DagLines.LinesJoined` | src/cmd/cflow/dag.c:145-161 | lines with newlines behind them are read as they are, and what has no newline behind it is ignored |
| `DagSaid.LinesTold` | src/cmd/cflow/dag.c:104-131 | a line gives a text just when it is blanks, letters, digits and underscores, blanks, =, blanks and the text, and says to what a name refers just when a colon is there instead |
| `DagLines.Getst` | src/cmd/cflow/dag.c:145-161 | the next line is in the buffer, cut where the buffer ends, or there is no newline any more |
| `DagLines.SkipBlanks` | src/cmd/cflow/dag.c:104-105 | where the blanks end, in memory |
| `DagLines.SkipName` | src/cmd/cflow/dag.c:109-110 | where the name ends |
| `DagLines.Cut` | src/cmd/cflow/dag.c:111-114 | a NUL behind the name, what is in front as it was, and the first character behind the blanks, with the text that goes on behind it |
| `DagLines.EnteredToEnd` | src/cmd/cflow/dag.c:129-139 | each string that is entered for the text behind a colon runs to the end of the line |
| `DagLines.EnteredAreWords` | src/cmd/cflow/dag.c:129-139 | what is entered are the names in the text if and only if the text is empty, or blanks and then one name up to its end |
| `DagLines.TwoNames` | src/cmd/cflow/dag.c:129-139 | of two names the first is entered together with the second |
| `DagLines.BAndC` | src/cmd/cflow/dag.c:129-139 | for the text of "a : b c" that is "b c", and then "c" |
| `DagLines.ReferenceWritten` | src/cmd/cflow/lpfx.c:267 | a line with one name before and one behind the colon, as this program writes it, is read as that reference |
| `DagLines.FlippedEntered` | src/cmd/cflow/flip.c:17-24 | of such a line turned round for the inverted listing the second name is entered with a blank behind it, as another name |
| `DagRead.InputIsHeard` | src/cmd/cflow/dag.c:94-143 | whatever names, references and texts are written as such lines, with no line too long, are what dag takes its input to say |
| `DagSaid.SaidIs` | src/cmd/cflow/dag.c:94-143 | names are in the order in which they are first met in the input, the others of each likewise, and each has the text of its last line with one |
| `DagRead.ReadRefs` | src/cmd/cflow/dag.c:130-139 | the loop over the text behind a colon, which puts NULs into the line as it goes, enters exactly those strings, in their order |
| `DagRead.RefMore` | src/cmd/cflow/dag.c:129-140 | a reference read: the successors are again exactly the names referred to, each once, in the order in which they were met |
| `DagRead.ReadLine` | src/cmd/cflow/dag.c:104-141 | a line read in place, character by character: names, references and texts of the graph in memory are those said so far, each node with a list of its own |
| `DagRead.ReadAll` | src/cmd/cflow/dag.c:94-143 | the graph that is read from the characters of the input has a node for each name, with the successors and the last text that the lines give it, nodes and successors in the order in which they are first met |
| `DagWalk.Walker.Dfs` | src/cmd/cflow/dag.c:254-287 | marks what it prints, never twice, and prints it as an outline; below the limit everything under the node ends up marked, cycles or not |
| `DagWalk.Walker.Children` | src/cmd/cflow/dag.c:279-286 | the successors one after the other, one level below |
| `DagWalk.Walker.PrintAll` | src/cmd/cflow/dag.c:68-74 | the nodes that are in no other's list are expanded in order, and only what can be reached from them; all of it, when there are no more nodes than levels |
| `DagWalk.ClosedReach` | src/cmd/cflow/dag.c:279-286 | marked nodes whose successors are all marked make up all that can be reached |
| `DagWalk.ForestAppend` | src/cmd/cflow/dag.c:279-286 | two outlines from the same level make up one, with the nodes of both at that level |
| `DagWalk.ExpandedOnce` | src/cmd/cflow/dag.c:266-276 | an expanded node is expanded on one line, and every other line about it comes later and gives the number of that one |
| `DagRun.ReachIsLeads` | src/cmd/cflow/dag.c:254-287 | nodes reach one another just as references lead from name to name |
| `DagRun.ForestOutline` | src/cmd/cflow/dag.c:254-287 | below the line of an expanded name are just the names to which it refers, in the order in which they were met, as far as the limit allows, and below other lines nothing |
| `DagRun.Run` | src/cmd/cflow/dag.c:68-143 | from characters to output: an outline that has the names to which no other refers at the top, each once, and below each expanded name those to which it refers; every line expands a name with its text, which no other line does, or gives the number of the earlier line that does; a name is expanded only if references lead to it from one at the top, and, with no more names than levels, whenever they do |
| `BfsLines.StartsAscend` | src/cmd/bfs/bfs.c:217-265 | lines begin one after the other |
| `BfsLines.LinesJoined` | src/cmd/bfs/bfs.c:217-265 | the lines of a file are those it is made of, each ended by a newline |
| `BfsLines.Bfs.NextChar` | src/cmd/bfs/bfs.c:235-258 | one character of the file, in or between lines |
| `BfsLines.Bfs.Bigopen` | src/cmd/bfs/bfs.c:217-265 | the index holds the length of every line and where every sixty-fourth begins; it fails exactly beyond 32767 lines |
| `BfsLines.Bfs.Landmark` | src/cmd/bfs/bfs.c:286-299 | there is a landmark at or before any line |
| `BfsLines.Bfs.Locate` | src/cmd/bfs/bfs.c:284-308 | the position moves to the beginning of the line, forwards, backwards or from a landmark |
| `BfsLines.Bfs.Load` | src/cmd/bfs/bfs.c:309-315 | the cache holds the block asked for, and the descriptor stands after it |
| `BfsLines.Bfs.Copy` | src/cmd/bfs/bfs.c:316-329 | the text up to the newline, over as many blocks as it takes |
| `BfsLines.Bfs.Bigread` | src/cmd/bfs/bfs.c:278-329 | any request, near or far, gives the text of the line, or its beginning if it is too long, and leaves everything ready for the next |
| `TarLookup.Compare` | src/cmd/tar.c:946-960 | finds the name in the window equal exactly when it and a blank stand there, and is else decided by the order of names |
| `TarLookup.Elsewhere` | src/cmd/tar.c:932-941 | a line with a greater name has only greater ones after it, one with a lesser only lesser ones before |
| `TarLookup.HitIsEntry` | src/cmd/tar.c:917-943 | in a file of names, each followed by a blank and more, a name is found at the newline before its line, where one behind the first line has it |
| `TarLookup.LineInside` | src/cmd/tar.c:920-931 | with lines of at most half the window, the line after the first newline is in it |
| `TarLookup.TrackUp` | src/cmd/tar.c:939-942 | what stands behind the end of the file in the window, when the search goes on there, spells the name exactly in that case |
| `TarLookup.Probe` | src/cmd/tar.c:931-941 | one look at the window: found, or the half in which the line must be, with what is known of the leftover characters |
| `TarLookup.Bsrch` | src/cmd/tar.c:901-944 | the newline before the line of that name if there is one after the first line; otherwise -1, but the end of the file exactly in the case in which leftover characters mislead it |
| `TarLookup.AbsentFound` | src/cmd/tar.c:917-943 | such a case: in a file of the lines azz 1 and b 1 the name zz is found |
| `ColPage.SlotsDiffer` | src/cmd/col.c:296-323 | within a page no two lines share a slot of the ring |
| `ColPage.AboveHas` | src/cmd/col.c:324-388 | what is printed of a sheet: each line that is not blank, once, in order |
| `ColPage.SheetPrinted` | src/cmd/col.c:87-213 | with the head placed by counting the moves, each line on which there is something when it is left for the last time is printed with the text of the last command obeyed there, those still there at the end likewise, and nothing else is |
| `ColPage.Col.Emit` | src/cmd/col.c:324-388 | moves down by full and half lines to exactly the line, and prints there |
| `ColPage.Col.Slide` | src/cmd/col.c:395-400 | the slot of the first line goes to the line after the last; the first has been printed |
| `ColPage.Col.Incr` | src/cmd/col.c:390-402 | one half-line forward, as on a sheet without end |
| `ColPage.Col.Decr` | src/cmd/col.c:404-410 | one half-line back, unless the line has left the ring |
| `ColPage.Col.Drain` | src/cmd/col.c:208-213 | what is still in the ring comes out in order, and the cursor ends on the last full line |
| `ColPage.Col.Run` | src/cmd/col.c:87-213 | for every sequence of moves and texts: each stored line that is not blank is printed once, on its own line, in increasing order, with the last text that was put there while the head, by count of the moves, was on it |
| `AcctTable.Absent` | src/cmd/acct/acctcms.c:287-291 | a free slot on the probe path means that the name is nowhere in the table |
| `AcctTable.Entered` | src/cmd/acct/acctcms.c:292-299 | a name entered at the first free slot is found again, and so are all others |
| `AcctTable.Full` | src/cmd/acct/acctcms.c:293-296 | the probe fails for a new name exactly when there are as many names as slots |
| `AcctTable.TallyIsSum` | src/cmd/acct/acctcms.c:278-301 | with room for every name, each has the sum of its records |
| `AcctSums.CleanIs` | src/cmd/acct/acctcms.c:282-286 | names have a question mark for each control character, and are else as they were |
| `AcctSums.BalancedIs` | src/cmd/acct/acctcms.c:278-301 | counter by counter, a summary is the sums of the records, each half of the times by itself |
| `AcctTable.NothingLost` | src/cmd/acct/acctcms.c:278-301 | with room for every name no record is lost |
| `AcctTable.TotalSet` | src/cmd/acct/acctcms.c:333-348 | how the grand total changes with one slot |
| `AcctTable.SqueezedLists` | src/cmd/acct/acctcms.c:367-389 | squeezing keeps every name, its counters and the total |
| `AcctCms.LumpedAt` | src/cmd/acct/acctcms.c:312-321 | what lumping does to each slot |
| `AcctCms.LumpedTotal` | src/cmd/acct/acctcms.c:312-321 | lumping conserves every counter |
| `AcctCms.LumpedHolds` | src/cmd/acct/acctcms.c:312-321 | commands used more than once are as they were, the others gone |
| `AcctCms.OtherIs` | src/cmd/acct/acctcms.c:312-321 | the name of the entry of the commands used once |
| `AcctCms.Cms.Find` | src/cmd/acct/acctcms.c:287-293 | linear probing finds the slot of the name, or the first free one, or that the table is full |
| `AcctCms.Cms.Enter` | src/cmd/acct/acctcms.c:278-301 | the table does what a map does, up to its capacity; a record that does not fit is lost |
| `AcctCms.Cms.FixJunk` | src/cmd/acct/acctcms.c:312-321 | as a map: the commands used once are one entry |
| `AcctCms.Cms.Squeeze` | src/cmd/acct/acctcms.c:367-389 | compaction in place keeps the entries in order |
| `AcctCms.Summary` | src/cmd/acct/acctcms.c:148-156 | the whole run: each name for which there was room once, once-used ones together under -j, and what was reported as lost for want of room makes up the rest of the total; with room for all, each name has, counter by counter, the sums of the records with that name, in which characters that cannot be printed are question marks |
| `MergeSpec.LessLaws` | src/cmd/acct/acctmerg.c:114-121 | the order of records, by user and name or by user alone |
| `MergeSums.LessIsEarlier` | src/cmd/acct/acctmerg.c:114-121 | a record comes before another by a lesser user number, or with the same, unless these alone matter, by a name that comes first in the order of characters |
| `MergeSpec.LeastIs` | src/cmd/acct/acctmerg.c:109-125 | the record chosen is least, and the first of equals |
| `MergeSpec.FrontIsAll` | src/cmd/acct/acctmerg.c:131-150 | in a sorted file the records with the least key are all at the front |
| `MergeSpec.MergedKeys` | src/cmd/acct/acctmerg.c:100-103 | from sorted files the keys come out strictly increasing |
| `MergeSpec.MergedSums` | src/cmd/acct/acctmerg.c:131-166 | each record put out has the sum of all records with its key, in all files |
| `MergeSpec.MergedHas` | src/cmd/acct/acctmerg.c:100-103 | every key of the input is put out, sorted or not |
| `MergeSpec.MergedTotal` | src/cmd/acct/acctmerg.c:131-166 | what is put out sums to what was read, sorted or not |
| `MergeSums.GrandIs` | src/cmd/acct/acctmerg.c:155-166 | counter by counter the total is the sum of the numbers of all records, modulo 65536 but for the processes, and each half of the times by itself |
| `MergeSums.SumsForIs` | src/cmd/acct/acctmerg.c:155-166 | and what is put out for a key the sums over all records with it |
| `MergeFiles.Merge.GetNext` | src/cmd/acct/acctmerg.c:179-208 | the next record of the file, or none |
| `MergeFiles.Merge.GetLeast` | src/cmd/acct/acctmerg.c:109-125 | the first file whose current record is least |
| `MergeFiles.Merge.SumCurr` | src/cmd/acct/acctmerg.c:131-150 | one round: the run of that key is taken off every file and summed |
| `MergeFiles.Merge.Run` | src/cmd/acct/acctmerg.c:96-103 | the rounds together are the merge, and the grand total is the sum of everything |
| `MergeFiles.Acctmerg` | src/cmd/acct/acctmerg.c:96-103 | for any files: every record read is put out in one with its key and the totals, counter by counter, are the sums of all numbers read; where the files are sorted the keys ascend and each record has, counter by counter, the sums over all records with its key |
| `TabStops.ContractStuck` | src/cmd/newform.c:774-802 | a stop that has been passed unnoticed ends contraction for the rest of the line |
| `TabStops.RunBack` | src/cmd/newform.c:784-795 | amid a run of blanks, expansion reads back what contraction wrote |
| `TabColumns.ExpandKeepsColumns` | src/cmd/newform.c:690-726 | expansion leaves every character in the column where it was, behind tabs and backspaces, too |
| `TabColumns.ContractKeepsColumns` | src/cmd/newform.c:763-805 | so does contraction, backspaces included |
| `TabColumns.LinesKeepColumns` | src/cmd/newform.c:690-805 | for whole lines: with stops that ascend every character is where it was |
| `TabColumns.NoTabs` | src/cmd/newform.c:690-726 | what has been expanded has no tabs in it |
| `TabStops.RoundTrip` | src/cmd/newform.c:690-805 | whatever the table of stops: expansion undoes contraction on text without tabs and backspaces |
| `TabForm.Form.Center` | src/cmd/newform.c:213-237 | the line is moved to the middle of the work area, in either direction |
| `TabForm.Form.InputTabs` | src/cmd/newform.c:690-726 | the line becomes its expansion |
| `TabForm.Form.OutputTabs` | src/cmd/newform.c:763-805 | the line becomes its contraction in place; the write pointer never passes the read pointer |
| `TabForm.Form.Space` | src/cmd/newform.c:786-793 | one blank, or the tab that takes the place of those since the last stop |
| `TabForm.OutAndIn` | src/cmd/newform.c:591-640 | -o and then -i leave a line as it was |
| `CpioStream.Writer.Bwrite` | src/cmd/cpio/cpio.c:861-913 | the bytes taken grow by exactly those of the call, rounded up to an even number in binary |
| `CpioStream.Flushed` | src/cmd/cpio/cpio.c:349 | writing the buffer itself at the end gets everything before it onto the output |
| `CpioStream.Reader.Refill` | src/cmd/cpio/cpio.c:819-838 | a record, full or short, is what is read next |
| `CpioStream.Reader.Bread` | src/cmd/cpio/cpio.c:805-857 | the bytes given are the next ones of the stream, whatever the sizes of the reads |
| `CpioStream.Reader.Peek` | src/cmd/cpio/cpio.c:592-611 | after looking ahead the stream is as before if and only if the records read by then fill the buffer and hold more than was looked at |
| `CpioStream.FirstRecord` | src/cmd/cpio/cpio.c:592-611 | for a first read longer than the header that is so if and only if it filled the buffer |
| `CpioStream.RecordsFill` | src/cmd/cpio/cpio.c:592-611 | in every case the reads must fill the buffer between them |
| `CpioStream.ShortFirst` | src/cmd/cpio/cpio.c:592-611 | a first read of 80 bytes into a buffer of 512 is not read again as it was |
| `CpioHeader.PrintScan` | src/cmd/cpio/cpio.c:572-590 | numbers printed with fixed widths are read back, if they fit |
| `CpioHeader.CharHeader` | src/cmd/cpio/cpio.c:572-590 | the header with characters comes back; a short fits six octal digits and a long eleven |
| `CpioLayout.CharFields` | src/cmd/cpio/cpio.c:572-582 | in a header with characters each field is the octal number at its own offset: six bytes each of magic number, device, inode, mode, owner, group, links and special device, eleven of the time, six of the size of the name and eleven of the size of the file |
| `CpioHeader.BinaryHeader` | src/cmd/cpio/cpio.c:616-636 | the binary header comes back, in either byte order |
| `CpioLayout.WordFields` | src/cmd/cpio/cpio.c:56-72 | in a binary header each is the word at its own offset, longs with their high word first, in either order of bytes |
| `CpioHeader.Told` | src/cmd/cpio/cpio.c:592-611 | a binary header is never taken for one with characters |
| `CpioArchive.PutData` | src/cmd/cpio/cpio.c:323-330 | a file goes out in buffers, of which only the last can be odd |
| `CpioArchive.CopyOut` | src/cmd/cpio/cpio.c:300-349 | what is written is an archive of the files |
| `CpioLayout.ArchiveLayout` | src/cmd/cpio/cpio.c:300-349 | where everything is in an archive: each header at the end of what is in front of it, the name and a NUL behind that, and the contents, each rounded up to an even number of bytes in binary, and at last the trailer |
| `CpioArchive.ChkHdr` | src/cmd/cpio/cpio.c:592-611 | the format is found out without losing a byte, when the bytes looked at can be read again |
| `CpioArchive.GetHdr` | src/cmd/cpio/cpio.c:616-636 | header and name as they were written |
| `CpioArchive.GetData` | src/cmd/cpio/cpio.c:364-372 | the contents, buffer by buffer |
| `CpioArchive.CopyIn` | src/cmd/cpio/cpio.c:352-386 | every file of the archive, up to the trailer, in reads of any lengths of which the first can be read again |
| `CpioArchive.WholeRecords` | src/cmd/cpio/cpio.c:805-857 | reading the records as they were written is such a way |
| `CpioArchive.RoundTrip` | src/cmd/cpio/cpio.c:300-386 | out and in again: the same files, names and statistics, for both formats, any record size and any way of splitting up the reads of which the first can be read again |
| `CalPage.Jan1IsCounted` | src/cmd/cal.c:195-226 | for every year the formula is the weekday found by counting days through both calendars and the gap of 1752 |
| `CalPage.MonthTable` | src/cmd/cal.c:140-165 | the lengths of the months, and the days of September 1752 |
| `CalPage.NextDay` | src/cmd/cal.c:195-226 | from one day to the next the weekday goes on by one, over the ends of months and years |
| `CalPage.LeapYears` | src/cmd/cal.c:140-165 | every fourth year is a leap year, but after 1752 no full century that is not divisible by 400 |
| `CalPage.KnownDays` | src/cmd/cal.c:135-226 | the 2nd of September 1752 was a Wednesday and the 14th the Thursday behind it, and the first of January 1970 was a Thursday |
| `CalPage.KindOfYear` | src/cmd/cal.c:144-165 | the distance between two first of Januaries tells ordinary, leap and changeover years apart |
| `CalPage.PageHas` | src/cmd/cal.c:170-187 | each day of the month stands in the row of its week and the column of its weekday, and no other cell changes |
| `CalPage.Cal.SetYear` | src/cmd/cal.c:140-165 | the lengths of the twelve months of that year |
| `CalPage.Cal.FirstColumn` | src/cmd/cal.c:166-169 | the weekday of the first of the month |
| `CalPage.Cal.Print` | src/cmd/cal.c:135-188 | the loop writes that page, September 1752 included |
| `TekPoints.Bits` | src/cmd/4014.c:282-288 | the groups of bits make up the coordinate modulo 4096 |
| `TekPoints.Plotter.Registers` | src/cmd/4014.c:290-297 | the bytes sent bring the registers of the terminal up to date, though pairs of them share tags |
| `TekPoints.Plotter.Sendpt` | src/cmd/4014.c:277-307 | the terminal draws exactly that point; for the first one all bytes are sent |
| `TekPoints.Plot` | src/cmd/4014.c:189-192 | any sequence of points arrives, whatever the terminal held before |

## Left out

- AwkMeaning.MatchText: the text has neither NUL nor the caret's pseudo-character in it, and the machine does not lead past the end of the text (`AwkMatch.Stops`), as it would for the expressions of `AwkMeaning.StopsUnless`.
- AwkMatch.Makedfa: the expression has fewer leaves than the tables have entries; the source does not check that.
- awk's `cclenter` and `freetr`, its interpreter and its grammar; the flag vectors of `cgotofn` are sets and its lists of positions sequences, so that what is cleared when is only partly visible.
- DumpTheorem.RoundTrip: requested files have no triple indirect block, no block is referred to twice, requests are ascending and distinct (as `savereq` and `qsort` leave them), there is at least one block of data, and the index is aligned.
- frec's `make`, directories, ownership and times, operator prompts, tape headers and labels; a file that is there already when it is recovered is not truncated, so that is a new one here.
- finc's reading of the device by `seer` with its buffers: a block is read as a value.
- EdSearch.Search: repeated back-references, which can go round for ever on an empty group, the remembered pattern when the new one is empty, and a NUL behind a backslash.
- EdCompile.Compiler.Compile: a range applied to a bracket of a group, a back-reference or another range changes the code of something that is no single character; the model reports it and claims nothing.
- The bound 255 of a range stands for 20000 more where characters are unsigned, and for itself elsewhere; both are in the model.
- JoinMerge.Joiner.Join: lines are lists of fields, each with the field joined on; reading them apart and the output list are not modelled.
- DagRun.Run: roots named on the command line, and what is reported of redefinitions, are not modelled. The NUL of a line that fills the buffer is written behind it, and that character is part of the buffer here.
- BfsLines.Bfs.Bigread: the last line is asked for only if it ends in a newline, and every line is short enough for the index's sixteen bits; the search of `hunt` is not modelled.
- TarLookup.Bsrch: lines are at most half the window long, and names have no blank in them.
- ColPage.Col.Run: col's decoding of escapes and half lines into moves, and the overstriking within a line, are one command each; tabs and character sets in the output are not modelled.
- AcctCms.Cms.FixJunk: there is room for the entry of the once-used commands; the source adds to slot -1 when there is none.
- AcctCms.Cms.Enter: a record without a name would be added to the counters of a free slot, and is excluded; counters do not wrap around, and the variant for total records is not modelled, as its lumping enters into the other table.
- MergeFiles.Acctmerg: numbers of type float are real numbers; printing and reading the records as text are not modelled.
- TabForm.Form.InputTabs: the line fits the space in front of the middle of the work area, as does its expansion; parsing of tab specifications is not modelled.
- TabColumns.LinesKeepColumns: the stops ascend for ever; what stands behind the source's table need not.
- CpioArchive.CopyIn: reads that return nothing, changes of reels, patterns, and what becomes of the files on disk; a header that is neither of the two kinds is reported as such.
- cal's headings, the twelve months side by side beyond their places in the buffer, and the removal of trailing blanks.
- 4014's characters between the points and the waits for the operator.
- Allocation failures, options and usage messages everywhere.
