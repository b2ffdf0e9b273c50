# Algorithms of a C and C++ program collection, modelled and proved in Dafny

The repository is a collection of independent C and C++ programs. This project models the ones with
an algorithm at their heart and proves what those algorithms are for. `dafny verify dfyconfig.toml`
checks everything.

Programs that change variables, arrays, files or linked nodes are methods with loops, proved against
functions of the old state; expressions and parsers of values are functions. Each group of files below
ends in a few main theorems, and where a promise of the original does not hold on every input, the
exact condition under which it holds is proved.

## What is modelled

**Maximum flow and minimum cut** (`Sums`, `FlowNetwork`, `FordFulkerson`). Breadth-first augmentation on
a residual matrix of any size, for two distinct vertices and capacities from 0 up of which opposite ones
add up to an `int`. The value returned is that of a feasible flow, no flow is larger, and it is the capacity of a
minimum cut; the pairs listed by `minCut` are exactly the edges of such a cut, and without them the sink
cannot be reached. Distances from the source never fall from one augmentation to the next, which bounds
the number of augmentations by half the vertices times the ordered pairs that carry capacity. The sum that
is kept stays an `int` exactly when the maximum flow is one.

**Reference-counted smart pointers** (`RefCounter`, `SmartPointers`, `SmartPointerSafety`,
`SmartPointerRuns`, `SmartPointerResults`). The counter is a class. The handle operations of `Ptr` and `InactivePtr` are programs
of small steps in a transition system: each counter call is one atomic step, as is every other statement
that touches a handle, and any number of threads may be switched between any two of them. An inductive
invariant over all interleavings gives: counts equal numbers of handles, an object is deleted once, when
its last active handle goes, a counter is freed once, when its last handle goes, nothing dead is used, and
a promoted `InactivePtr` is NULL or points to a live object. Each operation ends after at most eight steps of its
thread, and what it has come to then is said in terms of the state it started in: a copy or assignment has the
fields of its source and is counted, unless the source was NULL or the object was dead when the counter was called,
and then it is NULL. The comment above `AddInactiveRef` speaks of
the inactive count; the code tests the active one, and so does the model.

**The mail program nmail** (`Bytes`, `MailFile`, `CStrings`, and the following). A file is a sequence of bytes with
a position.
`Splice` is the in-place replacement of part of a file with two buffers. It ends exactly when the file grows
by less than two of the largest buffers or less than one is moved, and is right for all contents exactly when
the buffer covers what the file grows by; the comment that a minimum size is always met is not true above ten
megabytes.
`Mailbox`, `Headers` and `DeleteMessages` find messages and delete them. Deleting a message that is only a header
takes the one behind it along, if there is one. A set of requests leaves exactly the other messages if and only
if the numbers are distinct and in range, the dates are right, and each message has a body or only requested
messages behind it.
`Border`, `MimeWalk` and `MimeTree` are the two walks over multipart messages: part p of the page that shows
a message is where the download of part p stops, at the offset that part has in the tree of the message.
`Base64` encodes attachments and decodes them again, with the alphabet and lines of RFC 2045.
`FormFile` is the matcher that saves an uploaded file up to its delimiter. It finds the first occurrence in
every input exactly when the boundary is 7-bit and the delimiter does not start over inside itself, which one
without a further CR never does.
`Address` and `AddressBook` read name and address from a line, with brackets or without, and keep the book in the
preference file, sorted without regard to case.

**URL forms** (`CgiForm`, `CgiLimits`, `CgiParser`). However names and values are spelled, with digits and letters
of either case, a query of them is parsed to just these names and values, CRs aside. Printing name/value pairs and parsing the query returns the same
pairs exactly when all bytes are 7-bit, no value has a CR, and there are not too many fields. Names and
values may be empty. The array of fields has room for one more than `maxfields`, standing for the memory
behind it: the test for too many fields comes one field late, so that every query that is refused has already
run into that memory, and some that are not have too. Exactly which queries do, and which leave a value unset
that is read, is proved from the pieces between the & bytes.

**Smaller cores** (`AllPaths`, `CircularList`, `RadixSort`, `Calendar`). The backtracking search lists exactly the
simple paths. The two-cursor test says whether a list ends, on every finite heap of nodes. Radix sort sorts.
Day counts by loops, the closed-form Julian Day Number and the table of weekdays agree from the year 1 on; for
earlier years, where the programs divide towards zero, it is said exactly when they do. The distance of two
dates is the difference of their day numbers exactly when the years are in order, no year divisible by 4 comes
two years or more before the later one, and the year just before that one is no century year without a leap
day. For `__isleap`, which the repository does not define, is the macro of the C library's `time.h`, with a test
by 4, one by 100 and one by 400; its argument `inicio.ano++` is evaluated twice in every year divisible by 4.
The Easter formula gives the first Sunday after the full moon of the calendar's golden numbers and epacts.

`Wrappers`, `Sets`, `Sequences` and `Integers` hold what several of these share.

## Model

| member | source | states |
|---|---|---|
| FlowNetwork.CutCarriesTheFlow | DataStructure/ford_fulkerson/fordfulk.cxx:65-94 | Whatever is conserved away from source and sink crosses every cut with the same net value |
| FlowNetwork.FlowWithinCut | DataStructure/ford_fulkerson/fordfulk.cxx:49-95 | Weak duality: no feasible flow exceeds the capacity of any cut |
| FlowNetwork.ResidualIsFlow | DataStructure/ford_fulkerson/fordfulk.cxx:53-61 | A residual matrix always stands for a feasible flow, within capacities and conserved, of the accumulated value |
| FlowNetwork.SaturatedCutIsOptimal | DataStructure/ford_fulkerson/fordfulk.cxx:67-94 | Max-flow/min-cut: a cut that no positive residual leaves shows that the accumulated value is maximum and the cut is minimum |
| FlowNetwork.ValueWithinSource | DataStructure/ford_fulkerson/fordfulk.cxx:65-91 | The accumulated value never exceeds the capacity out of the source, the measure by which the loop ends |
| FlowNetwork.LevelsBoundWalks | DataStructure/ford_fulkerson/fordfulk.cxx:26-41 | No walk over positive residuals is shorter than the search level of its end |
| FlowNetwork.LevelIsReached | DataStructure/ford_fulkerson/fordfulk.cxx:26-41 | Every vertex the search labels is reached by a walk of exactly its level |
| FlowNetwork.PushAt | DataStructure/ford_fulkerson/fordfulk.cxx:80-87 | Exactly the edges of the path lose the path flow and exactly their reverses gain it |
| FlowNetwork.PushRow | DataStructure/ford_fulkerson/fordfulk.cxx:80-87 | Only the residuals out of the two ends of the path change in sum, by the path flow |
| FlowNetwork.AugmentationKeepsResidual | DataStructure/ford_fulkerson/fordfulk.cxx:67-91 | An augmentation keeps residuals non-negative, opposite residuals constant in sum, and the flow conserved, and adds at least 1 to the value |
| FlowNetwork.AugmentationEdges | DataStructure/ford_fulkerson/fordfulk.cxx:80-87 | The only residual edges an augmentation creates lead one level back |
| FlowNetwork.LevelsNeverFall | DataStructure/ford_fulkerson/fordfulk.cxx:68-91 | Edmonds-Karp monotonicity: no vertex comes closer to the source by an augmentation |
| FlowNetwork.DistancesNeverDecrease | DataStructure/ford_fulkerson/fordfulk.cxx:68-91 | Every walk from the source after an augmentation is matched by one no longer before it |
| FlowNetwork.BottleneckIsSaturated | DataStructure/ford_fulkerson/fordfulk.cxx:73-87 | Each augmentation uses up some edge of its path entirely |
| FlowNetwork.LedgerRecords | DataStructure/ford_fulkerson/fordfulk.cxx:68-91 | Between two saturations of the same edge its tail rises by at least two levels |
| FlowNetwork.LedgerGrows | DataStructure/ford_fulkerson/fordfulk.cxx:68-91 | Every augmentation adds one to the recorded saturations |
| FlowNetwork.LedgerIsBounded | DataStructure/ford_fulkerson/fordfulk.cxx:68-91 | There are at most n/2 saturations for each ordered pair with capacity in either direction |
| FordFulkerson.CopyMatrix | DataStructure/ford_fulkerson/fordfulk.cxx:53-61 | The residual matrix is a fresh copy of the capacities |
| FordFulkerson.ScanRow | DataStructure/ford_fulkerson/fordfulk.cxx:32-40 | Scanning a row queues, marks and parents its unvisited successors and keeps the search invariant |
| FordFulkerson.Bfs | DataStructure/ford_fulkerson/fordfulk.cxx:13-46 | The search labels every reachable vertex with its level, fills the parent tree, and returns true exactly when t is reached |
| FordFulkerson.ChainIsShortest | DataStructure/ford_fulkerson/fordfulk.cxx:34-39 | Every parent chain is a walk over positive residuals that no other walk from s to t beats |
| FordFulkerson.PathFlow | DataStructure/ford_fulkerson/fordfulk.cxx:70-78 | The first pass over the parent chain finds its least residual |
| FordFulkerson.MoveFlow | DataStructure/ford_fulkerson/fordfulk.cxx:84-86 | One edge and its reverse change, nothing else |
| FordFulkerson.UpdateResiduals | DataStructure/ford_fulkerson/fordfulk.cxx:80-87 | The second pass pushes the path flow along the whole chain |
| FordFulkerson.Augment | DataStructure/ford_fulkerson/fordfulk.cxx:68-91 | One round is an augmentation: a level-climbing walk from s to t and its bottleneck, pushed along it |
| FordFulkerson.StaysInt | DataStructure/ford_fulkerson/fordfulk.cxx:56-87 | Residuals never leave the range of an int |
| FordFulkerson.Saturate | DataStructure/ford_fulkerson/fordfulk.cxx:53-91 | The loop ends with t unreachable in a residual matrix of the returned value, after at most n/2 rounds for each ordered pair that carries capacity; the value was an int after every round exactly when it is one at the end |
| FordFulkerson.ReachedIsMinCut | DataStructure/ford_fulkerson/fordminfulk.cxx:98-101 | What the source still reaches is a minimum cut whose capacity is the maximum flow |
| FordFulkerson.MaxFlow | DataStructure/ford_fulkerson/fordfulk.cxx:49-95 | The value returned is that of some feasible flow, of no larger one, and of a minimum cut; every sum on the way was an int exactly when it is one |
| FordFulkerson.Dfs | DataStructure/ford_fulkerson/fordminfulk.cxx:49-58 | The recursive marking terminates, marks s, closes the marks under residual edges, and marks only reachable vertices |
| FordFulkerson.LevelsAreMarked | DataStructure/ford_fulkerson/fordminfulk.cxx:52-58 | Everything the search reaches is in every closed marking that holds the source |
| FordFulkerson.CutEdgesMembers | DataStructure/ford_fulkerson/fordminfulk.cxx:103-108 | Exactly the edges from marked to unmarked vertices with capacity are listed |
| FordFulkerson.CutEdgesDistinct | DataStructure/ford_fulkerson/fordminfulk.cxx:103-108 | No edge is listed twice |
| FordFulkerson.CutEdgesTotal | DataStructure/ford_fulkerson/fordminfulk.cxx:103-108 | The capacities listed add up to the capacity of the cut |
| FordFulkerson.CutSeparates | DataStructure/ford_fulkerson/fordminfulk.cxx:103-108 | Without the listed edges no walk leaves the marked vertices |
| FordFulkerson.ListCut | DataStructure/ford_fulkerson/fordminfulk.cxx:103-108 | The two loops list the cut edges row by row |
| FordFulkerson.ListedCut | DataStructure/ford_fulkerson/fordminfulk.cxx:98-108 | Members, distinctness, total, and separation of a listed cut together |
| FordFulkerson.MinCut | DataStructure/ford_fulkerson/fordminfulk.cxx:61-111 | The edges listed are exactly those of a minimum cut, once each; their total is the maximum flow; without them t is unreachable |
| RefCounter.PtrRefCounter.constructor | SmartPointer/s_pointer_lib/PtrRefCounter.h:47-50 | A counter starts with one active and no inactive reference |
| RefCounter.PtrRefCounter.AddActiveRef | SmartPointer/s_pointer_lib/PtrRefCounter.h:90-107 | Counts one more active reference, refused exactly when the object is dead |
| RefCounter.PtrRefCounter.AddInactiveRef | SmartPointer/s_pointer_lib/PtrRefCounter.h:120-137 | Counts one more inactive reference, refused exactly when the object is dead |
| RefCounter.PtrRefCounter.SubtractActiveRef | SmartPointer/s_pointer_lib/PtrRefCounter.h:154-178 | Non-zero exactly for the last active reference, DELETE_REF_COUNTER exactly for the last of all |
| RefCounter.PtrRefCounter.SubtractInactiveRef | SmartPointer/s_pointer_lib/PtrRefCounter.h:192-205 | False exactly for the last reference of all |
| SmartPointerSafety.AdjustKeeps | SmartPointer/s_pointer_lib/Ptr.h:422-434 | Registering a copied handle keeps the invariant, also when the object has died meanwhile |
| SmartPointerSafety.SubtractKeeps | SmartPointer/s_pointer_lib/Ptr.h:361-372 | Giving up a reference keeps the invariant, and makes the thread that gave up the last one the one that deletes |
| SmartPointerSafety.DeleteKeeps | SmartPointer/s_pointer_lib/Ptr.h:366-371 | Deleting the object keeps the invariant |
| SmartPointerSafety.FreeKeeps | SmartPointer/s_pointer_lib/InactivePtr.h:186-189 | Freeing the counter keeps the invariant |
| SmartPointerSafety.ClearKeeps | SmartPointer/s_pointer_lib/InactivePtr.h:191-193 | Nulling both fields at the end of ResetPtr, and what the caller does next, keeps the invariant |
| SmartPointerSafety.NullKeeps | SmartPointer/s_pointer_lib/InactivePtr.h:248-254 | Nulling a handle whose registration was refused keeps the invariant |
| SmartPointerSafety.StoreKeeps | SmartPointer/s_pointer_lib/Ptr.h:453-458 | Storing the fields of another handle after the reset keeps the invariant |
| SmartPointerSafety.WrapKeeps | SmartPointer/s_pointer_lib/Ptr.h:239-254 | A new counter for a fresh object, held by the one handle, keeps the invariant |
| SmartPointerSafety.NewKeeps | SmartPointer/s_pointer_lib/InactivePtr.h:119-122 | A handle that starts out NULL keeps the invariant |
| SmartPointerSafety.CopyKeeps | SmartPointer/s_pointer_lib/Ptr.h:201-206 | Starting a copy construction from another handle keeps the invariant |
| SmartPointerSafety.AssignKeeps | SmartPointer/s_pointer_lib/Ptr.h:447-460 | Starting an assignment, to itself and to a handle of the same counter included, keeps the invariant |
| SmartPointerSafety.NextKeeps | SmartPointer/s_pointer_lib/Ptr.h:359-460 | Every step callers may take, in any interleaving, is defined and keeps the invariant |
| SmartPointerSafety.InvIsReady | SmartPointer/s_pointer_lib/Ptr.h:361-372 | Every statement finds the handle, counter and object it dereferences |
| SmartPointerSafety.HeldIsCounted | SmartPointer/s_pointer_lib/PtrRefCounter.h:156-194 | The asserted preconditions of the subtractions hold: a registered handle's count is positive and its counter not freed |
| SmartPointerSafety.SourceIsHeld | SmartPointer/s_pointer_lib/Ptr.h:201-206 | The handle copied from keeps its counter alive until the copy is registered |
| SmartPointerSafety.PendingIsUnique | SmartPointer/s_pointer_lib/Ptr.h:361-372 | A thread on its way to delete or free is the only one, and it has not been done before |
| SmartPointerRuns.RunKeepsInv | SmartPointer/s_pointer_lib/Ptr.h:359-460 | The invariant holds in every state of every run over any number of threads |
| SmartPointerRuns.RunCanContinue | SmartPointer/s_pointer_lib/InactivePtr.h:182-282 | No run reaches a state where a statement has nothing to dereference |
| SmartPointerRuns.CountsAreHandles | SmartPointer/s_pointer_lib/PtrRefCounter.h:67-68 | The two counts are the numbers of registered Ptr and InactivePtr handles, and between operations of the handles pointing to the counter |
| SmartPointerRuns.LifetimesFollowCounts | SmartPointer/s_pointer_lib/PtrRefCounter.h:36-43 | The object is deleted at most once and only when no active reference is left, the counter freed at most once and only when none is; between operations exactly then |
| SmartPointerRuns.PtrIsNullOrLive | SmartPointer/s_pointer_lib/Ptr.h:41-47 | A Ptr nobody is writing is NULL or points to a live object, also when promoted from an InactivePtr |
| SmartPointerRuns.NoUseAfterFree | SmartPointer/s_pointer_lib/Ptr.h:359-434 | No counter is used after it was freed and nothing is deleted or freed twice |
| SmartPointerRuns.DeadStaysDead | SmartPointer/s_pointer_lib/PtrRefCounter.h:94-104 | No step brings an active count back from zero |
| SmartPointerRuns.DeadForever | SmartPointer/s_pointer_lib/PtrRefCounter.h:94-104 | Over a whole run, an object once dead stays dead |
| SmartPointerRuns.NothingLeaks | SmartPointer/s_pointer_lib/PtrRefCounter.h:36-43 | When all handles are NULL and no operation is under way, every object was deleted and every counter freed exactly once |
| SmartPointerResults.CopyResult | SmartPointer/s_pointer_lib/Ptr.h:201-206 | After copying, promotion included, the new handle has both fields of the source; when the thread is idle again it is registered on that counter with that object if the active count was above zero at the counter call, and NULL if that was zero or the source was NULL |
| SmartPointerResults.AssignResult | SmartPointer/s_pointer_lib/Ptr.h:447-460 | After assignment the handle is unchanged if both had the same counter, and otherwise has come to what copying the source gives |
| SmartPointerResults.AssignRawResult | SmartPointer/s_pointer_lib/Ptr.h:239-254 | After assigning a raw pointer the handle is NULL, or the one handle of a new counter with count one for that object |
| SmartPointerResults.ResetResult | SmartPointer/s_pointer_lib/InactivePtr.h:182-194 | After ResetPtr the handle is NULL and no counter counts it |
| SmartPointerResults.DropResult | SmartPointer/s_pointer_lib/Ptr.h:264-268 | After the destructor the handle is gone and no counter counts it |
| SmartPointerResults.NewResult | SmartPointer/s_pointer_lib/Ptr.h:148-156 | A Ptr made from a raw pointer is the one handle of a new counter, or NULL for NULL; a new InactivePtr is NULL |
| SmartPointerResults.Finishes | SmartPointer/s_pointer_lib/Ptr.h:359-434 | Whatever other threads do in between, a thread comes to the result that its next statement stands for |
| SmartPointerResults.OtherStep | SmartPointer/s_pointer_lib/Ptr.h:359-460 | No step of another thread changes the handle a thread is working on, or its place in the operation |
| SmartPointerResults.ObjectStays | SmartPointer/s_pointer_lib/Ptr.h:201-206 | A counter stands for the same object for ever |
| SmartPointerResults.KindStays | SmartPointer/s_pointer_lib/InactivePtr.h:133-139 | No step makes a Ptr of an InactivePtr or the other way round |
| SmartPointerResults.OwnStepIsNearer | SmartPointer/s_pointer_lib/Ptr.h:359-434 | Every step of a thread brings its operation nearer to the end |
| SmartPointerResults.OwnStepIsPossible | SmartPointer/s_pointer_lib/Ptr.h:359-434 | A thread at work can always take its next step |
| SmartPointerResults.SharedObject | SmartPointer/s_pointer_lib/Ptr.h:148-206 | Concretely: a run after which two Ptr share an object and its counter counts two |
| MailFile.File.Write | cgi-cxx/nmail-0.1.76/mail_process.cpp:635-650 | Writing overwrites at the position, growing the file where needed, and moves the position behind |
| Splice.BufferAllocate | cgi-cxx/nmail-0.1.76/mail_process.cpp:34-101 | The size is that of the first row that suits; it reaches the minimum exactly when the minimum is at most the largest buffer |
| Splice.ChosenIs | cgi-cxx/nmail-0.1.76/mail_process.cpp:34-48 | The five buffer sizes and the limits below which each is used, as numbers of bytes |
| Splice.StartOnTrack | cgi-cxx/nmail-0.1.76/mail_process.cpp:528-581 | After the first block is read and the line written, written and pending bytes make up the target when the buffer covers the growth |
| Splice.RoundOnTrack | cgi-cxx/nmail-0.1.76/mail_process.cpp:588-659 | A round never lets the write offset pass unread data, keeps written plus pending equal to the target, and writes at least a byte of it |
| Splice.MoveBlock | cgi-cxx/nmail-0.1.76/mail_process.cpp:591-658 | One round: reads ahead into the spare buffer, then writes the held one |
| Splice.MoveBlocks | cgi-cxx/nmail-0.1.76/mail_process.cpp:586-680 | The loop ends whenever the write offset is less than a buffer ahead of what is read, and it and the final cut leave what its rounds say |
| Splice.OnTrackStops | cgi-cxx/nmail-0.1.76/mail_process.cpp:588-659 | A loop on track comes to an end, with the target |
| Splice.RoundIsBounded | cgi-cxx/nmail-0.1.76/mail_process.cpp:588-659 | A round keeps the distance of the offsets and the growth of the file bounded and brings the end nearer |
| Splice.CoveredIsRight | cgi-cxx/nmail-0.1.76/mail_process.cpp:406-683 | What the loop leaves of a covered splice is old[..write] + line + old[read..] |
| Splice.InsertLineInFile | cgi-cxx/nmail-0.1.76/mail_process.cpp:406-683 | Success is reported exactly when the offsets are in order and in the file, otherwise nothing changes; a covered splice leaves old[..write] + line + old[read..], and any that ends what its loop leaves with the buffer chosen |
| Splice.OverrunIsWrong | cgi-cxx/nmail-0.1.76/mail_process.cpp:401-404 | Where the line runs over unread data, some file and line of these lengths come out wrong |
| Splice.SpliceRightIffCovered | cgi-cxx/nmail-0.1.76/mail_process.cpp:442-523 | The splice is right for all contents exactly when the growth is at most the largest buffer or less than one such buffer is moved |
| Splice.AlwaysAnother | cgi-cxx/nmail-0.1.76/mail_process.cpp:588-622 | With the write offset a whole buffer ahead there is always another full block to read |
| Splice.SpliceEndsIff | cgi-cxx/nmail-0.1.76/mail_process.cpp:399-404 | The loop ends if and only if the file grows by less than two of the largest buffers or less than one is moved |
| Mailbox.GetLine | cgi-cxx/nmail-0.1.76/mail_process.cpp:199-203 | Reads up to and including the next newline; empty exactly at the end of the file |
| Mailbox.JoinSplit | cgi-cxx/nmail-0.1.76/mail_process.cpp:128-153 | Splitting a mail file into preamble and messages loses no byte |
| Mailbox.SplitConcat | cgi-cxx/nmail-0.1.76/mail_process.cpp:128-153 | Files of complete lines split where they were put together, up to the message the second one goes on with |
| Mailbox.SplitIsGood | cgi-cxx/nmail-0.1.76/mail_process.cpp:128-153 | Every message found is one on its own: it starts with "From " and ends in a blank line unless it is the last |
| Mailbox.SplitMessages | cgi-cxx/nmail-0.1.76/mail_process.cpp:128-153 | Messages written one after the other are found again, all of them and no others |
| Mailbox.SplitJoin | cgi-cxx/nmail-0.1.76/mail_process.cpp:128-153 | A well-formed preamble with messages is what its bytes split into |
| Mailbox.CutIsRemove | cgi-cxx/nmail-0.1.76/delete_message.cpp:192-205 | Cutting the bytes of messages i up to j out of any file leaves exactly the other messages |
| Mailbox.StartsAreFrom | cgi-cxx/nmail-0.1.76/mail_process.cpp:128-153 | Messages start exactly at the offsets where the five bytes of "From " stand at the start of the file or behind a blank line |
| Mailbox.MessageRuns | cgi-cxx/nmail-0.1.76/mail_process.cpp:165-232 | Message k is the bytes from its start to the next start or the end of the file, and is not empty |
| Headers.FillHeader | cgi-cxx/nmail-0.1.76/parse_mail_headers.cpp:151-332 | Reads up to and including the first blank line and fails exactly when there is none |
| Headers.HeaderLengthPrefix | cgi-cxx/nmail-0.1.76/parse_mail_headers.cpp:185-320 | A header does not depend on what follows it |
| Headers.HeaderEndsBlank | cgi-cxx/nmail-0.1.76/parse_mail_headers.cpp:185-320 | In bytes: the header ends behind the first newline that is the first byte or follows another newline |
| DeleteMessages.PointToMessage | cgi-cxx/nmail-0.1.76/mail_process.cpp:108-167 | Stops at the start of message num, and succeeds exactly for the numbers there are |
| DeleteMessages.PointToNextMessage | cgi-cxx/nmail-0.1.76/mail_process.cpp:177-239 | Stops at the next "From " line behind a blank line, at the end of the file when there is none |
| DeleteMessages.NextOffset | cgi-cxx/nmail-0.1.76/delete_message.cpp:174-198 | Where the splice reads on once the header of a message was read: the next message, or the one after it when the first is only a header |
| DeleteMessages.DeleteMsgFromFile | cgi-cxx/nmail-0.1.76/delete_message.cpp:146-208 | Succeeds exactly for a number in range with a header of that date; then that message is gone, with the next one too behind a message that is only a header, and the others are left byte for byte; otherwise the file is |
| DeleteMessages.DeletesOneIff | cgi-cxx/nmail-0.1.76/delete_message.cpp:192-205 | Exactly one message goes if and only if it has a byte behind its header or is the last |
| DeleteMessages.HeaderOnlyTakesTheNext | cgi-cxx/nmail-0.1.76/delete_message.cpp:192-205 | Concretely: of two header-only messages, deleting the first deletes both |
| DeleteMessages.SortMsgIds | cgi-cxx/nmail-0.1.76/delete_message.cpp:116-141 | In place: descending by number, and a permutation of the requests |
| DeleteMessages.ProgressNext | cgi-cxx/nmail-0.1.76/delete_message.cpp:60-70 | After deleting higher numbers the next request still hits its message, is valid exactly when it was, and takes one message exactly when that has a body or nothing is left behind it |
| DeleteMessages.EachTakesOne | cgi-cxx/nmail-0.1.76/delete_message.cpp:60-70 | Deletions that all succeed take at least one message each, and all numbers were in range |
| DeleteMessages.ExactIsOneEach | cgi-cxx/nmail-0.1.76/delete_message.cpp:60-70 | Leaving exactly the other messages needs distinct numbers and exactly one message a deletion |
| DeleteMessages.OneEachIff | cgi-cxx/nmail-0.1.76/delete_message.cpp:60-70 | From any request on, one message goes for each exactly when the rest is valid and takes none along |
| DeleteMessages.DeletesExactlyIff | cgi-cxx/nmail-0.1.76/delete_message.cpp:34-81 | Requests in descending order leave exactly the other messages if and only if the numbers are distinct, each is in range with the right date, and each message has a body or only requested ones behind it |
| DeleteMessages.BothHeadersGo | cgi-cxx/nmail-0.1.76/delete_message.cpp:34-81 | Concretely: two header-only messages are both deleted when both are requested |
| DeleteMessages.DeleteMsgs | cgi-cxx/nmail-0.1.76/delete_message.cpp:34-81 | For all requests the mailbox and the result are those of the single deletions, highest number first, up to the first that fails; success that leaves exactly the messages not requested, byte for byte and in order, comes if and only if the requests are clean |
| FormFile.ScanIsFirst | cgi-cxx/nmail-0.1.76/parse_form.cpp:575-621 | With a delimiter that never starts over inside itself the matcher finds the first occurrence in any input |
| FormFile.NotSimpleMisses | cgi-cxx/nmail-0.1.76/parse_form.cpp:599-612 | With any other 7-bit delimiter it misses one in some input |
| FormFile.MatcherRightIffSimple | cgi-cxx/nmail-0.1.76/parse_form.cpp:561-627 | The matcher finds the first delimiter in every input exactly when the boundary is 7-bit and the delimiter's first character recurs only where it repeats its own beginning to the end |
| FormFile.HighByteMisses | cgi-cxx/nmail-0.1.76/parse_form.cpp:583 | A boundary with a byte from 128 up, a negative char, is found in no input |
| FormFile.NoReturnIsSimple | cgi-cxx/nmail-0.1.76/parse_form.cpp:561-571 | A boundary without CR gives such a delimiter |
| FormFile.FirstDelimiterIsFound | cgi-cxx/nmail-0.1.76/parse_form.cpp:561-627 | With a 7-bit boundary without CR the first CR LF "--" boundary is found, and none is found only when there is none (section 5.1.1 of RFC 2046) |
| FormFile.FoundAt | cgi-cxx/nmail-0.1.76/parse_form.cpp:561-627 | In bytes: what precedes the first 13 10 45 45 and the boundary, 7-bit and without CR, is what the matcher passes |
| FormFile.ReturnInBoundaryMisses | cgi-cxx/nmail-0.1.76/parse_form.cpp:599-612 | Concretely: with the boundary CR "A" an occurrence is missed |
| FormFile.SavingNext | cgi-cxx/nmail-0.1.76/parse_form.cpp:581-616 | Saved plus held characters are always the input read so far |
| FormFile.Flush | cgi-cxx/nmail-0.1.76/parse_form.cpp:587-597 | Writing out the held part of the delimiter gives back the input that was held |
| FormFile.GetFormFileSave | cgi-cxx/nmail-0.1.76/parse_form.cpp:546-645 | Saves exactly the input before the match, succeeds exactly when there is one, and stops behind the one or two characters it takes after it |
| Border.BorderIsLine | cgi-cxx/nmail-0.1.76/view_message.cpp:813-843 | The two border lines of a boundary are told apart and recognised |
| Border.StatusOfLine | cgi-cxx/nmail-0.1.76/view_message.cpp:813-843 | In bytes: which lines start a message, are blank, start a part, or end a multipart, for every line and boundary |
| Border.FindNextBorder | cgi-cxx/nmail-0.1.76/view_message.cpp:774-801 | Stops behind the first line that is a border or starts a message |
| Border.NoBoundaryNoBorder | cgi-cxx/nmail-0.1.76/view_message.cpp:827-828 | Without a boundary only the start of a message stops the search |
| Border.ReadText | cgi-cxx/nmail-0.1.76/view_message.cpp:568-621 | A text part is read to the same border as other parts, or to the end of the file |
| Base64.ConvToBase64 | cgi-cxx/nmail-0.1.76/send_message.cpp:691-743 | Masks and shifts cut the 24 bits of one to three bytes into four characters, padded for what is missing |
| Base64.GroupIsDecoded | cgi-cxx/nmail-0.1.76/encoding_conv.cpp:217-280 | Four characters give back exactly the one to three bytes they stand for |
| Base64.Alphabet | cgi-cxx/nmail-0.1.76/send_message.cpp:725-743 | The 64 characters of RFC 2045 in their order, and the padding |
| Base64.AlphabetValues | cgi-cxx/nmail-0.1.76/encoding_conv.cpp:259-280 | Each of these characters has the value of its place, the padding 64, and every other byte none |
| Base64.StandardGroups | cgi-cxx/nmail-0.1.76/send_message.cpp:691-721 | f, fo and foo are encoded as section 10 of RFC 4648 gives |
| Base64.RefusedIsMalformed | cgi-cxx/nmail-0.1.76/encoding_conv.cpp:231-244 | Four characters are refused exactly when one is outside the alphabet or one of the first two is padding |
| Base64.MalformedLine | cgi-cxx/nmail-0.1.76/view_attachment.cpp:405-431 | A line that begins with refused characters ends the text with nothing put out, unless no more than four characters are in it |
| Base64.ReadGroup | cgi-cxx/nmail-0.1.76/send_message.cpp:651-664 | The next three bytes, with a mark for each that is missing |
| Base64.EncodeBody | cgi-cxx/nmail-0.1.76/send_message.cpp:649-681 | The whole file as groups in lines of nineteen |
| Base64.LinesAreShort | cgi-cxx/nmail-0.1.76/send_message.cpp:671-677 | No line of encoded text has more than 76 characters (section 6.8 of RFC 2045) |
| Base64.FullLine | cgi-cxx/nmail-0.1.76/send_message.cpp:671-677 | As long as 57 bytes are left a line has exactly 76 characters |
| Base64.ConvFromBase64 | cgi-cxx/nmail-0.1.76/encoding_conv.cpp:217-280 | The 24-bit number of the four values cut into bytes, refused for other characters or early padding |
| Base64.ConvAndOutBase64String | cgi-cxx/nmail-0.1.76/encoding_conv.cpp:176-213 | Puts out the bytes before the padding and says whether it was the end |
| Base64.DecodeOneLine | cgi-cxx/nmail-0.1.76/view_attachment.cpp:399-431 | The loop over a line puts out what its groups stand for |
| Base64.DispAttCtBase64 | cgi-cxx/nmail-0.1.76/view_attachment.cpp:357-436 | The loop over lines puts out what the text stands for up to a border, padding or an error, and fails when the file ends before |
| Base64.RowIsDecoded | cgi-cxx/nmail-0.1.76/view_attachment.cpp:405-425 | A line of encoded text is decoded to the bytes it took |
| Base64.RowIsText | cgi-cxx/nmail-0.1.76/view_message.cpp:821-842 | A line of encoded text is never taken for a border or a message |
| Base64.EncodedIsDecoded | cgi-cxx/nmail-0.1.76/view_attachment.cpp:376-433 | Encoded text with anything behind it is decoded to the attachment, and what is behind is looked at only when no padding ended it |
| Base64.BorderEnds | cgi-cxx/nmail-0.1.76/view_attachment.cpp:388-403 | A blank line and the border end an attachment without padding |
| Base64.AttachmentRoundTrip | cgi-cxx/nmail-0.1.76/view_attachment.cpp:357-436 | Any bytes, encoded and followed by their border, are put out unchanged |
| MimeWalk.FillMailHeader | cgi-cxx/nmail-0.1.76/parse_mail_headers.cpp:151-332 | The header of a part and the place behind it, none when the file ends inside it |
| MimeWalk.ViewMessageBody | cgi-cxx/nmail-0.1.76/view_message.cpp:234-282 | Which walk each type gets, and that all numbers given are those of the viewer's walk |
| MimeWalk.ViewBodyCtMultipart | cgi-cxx/nmail-0.1.76/view_message.cpp:393-439 | First border, parts, and the border around the multipart, as the walk says |
| MimeWalk.ViewEveryPart | cgi-cxx/nmail-0.1.76/view_message.cpp:411-433 | The loop numbers the parts one after the other, each before those below it |
| MimeWalk.ViewOnePart | cgi-cxx/nmail-0.1.76/view_message.cpp:413-431 | One round: header, default type, number, and the walk below the part |
| MimeWalk.LeaveMultipart | cgi-cxx/nmail-0.1.76/view_message.cpp:435-438 | After its parts a multipart is left at the next border around it |
| MimeWalk.FindAttachment | cgi-cxx/nmail-0.1.76/view_attachment.cpp:117-173 | Stops the file at the body of the part looked for, with the header and boundary of the search |
| MimeWalk.FindNextCtMultipart | cgi-cxx/nmail-0.1.76/view_attachment.cpp:184-238 | The search through a multipart, as the search function says |
| MimeWalk.FindInParts | cgi-cxx/nmail-0.1.76/view_attachment.cpp:206-226 | The loop over the parts counts each before searching below it |
| MimeWalk.LeaveUnfound | cgi-cxx/nmail-0.1.76/view_attachment.cpp:229-235 | A multipart without the part is left at the next border around it |
| MimeWalk.ViewAgrees | cgi-cxx/nmail-0.1.76/view_attachment.cpp:117-173 | For any part the search from it finds exactly what the viewer's walk from it numbered, and ends at the same place with the same count otherwise |
| MimeWalk.MultipartAgrees | cgi-cxx/nmail-0.1.76/view_attachment.cpp:184-238 | The same for multiparts |
| MimeWalk.PartsAgree | cgi-cxx/nmail-0.1.76/view_attachment.cpp:206-226 | The same for the rest of a series of parts |
| MimeWalk.LinksAreFound | cgi-cxx/nmail-0.1.76/view_attachment.cpp:117-238 | In any file whose viewing ends, the part the viewer numbers p is where the finder stops for p, and numbers given to none are not found |
| MimeWalk.FirstPartIsMet | cgi-cxx/nmail-0.1.76/view_message.cpp:253-258 | For each of mixed, parallel, digest and other multiparts with a first border: a walk that ends has met the first part under the next number, behind that part's header, and the finder stops there for this number |
| MimeWalk.FirstPartIsFound | cgi-cxx/nmail-0.1.76/view_attachment.cpp:138-146 | For each of these four types the finder stops at the first part for the next number, with its header and the default type: message/rfc822 in a digest, text/plain elsewhere |
| MimeWalk.NoFirstPart | cgi-cxx/nmail-0.1.76/view_message.cpp:393-439 | A multipart of these types without a boundary is an error where it begins; one whose first border is its last, or starts a message, ends there; neither has parts to either walk |
| MimeWalk.LeafIsPassed | cgi-cxx/nmail-0.1.76/view_message.cpp:263-281 | Text, images and other types have no parts to either walk and are left at the next border; inline text also at the end of the file, while the others are an error at once without a boundary around them |
| MimeTree.QuietSkips | cgi-cxx/nmail-0.1.76/view_message.cpp:786-795 | Lines that are no borders are passed over |
| MimeTree.BorderAfter | cgi-cxx/nmail-0.1.76/view_message.cpp:774-801 | The next border is the one behind such lines |
| MimeTree.ViewPart | cgi-cxx/nmail-0.1.76/view_message.cpp:393-439 | The walk over the text of a well-formed part meets the parts below it in order, each at its own offset, and ends behind its border |
| MimeTree.ViewSeries | cgi-cxx/nmail-0.1.76/view_message.cpp:411-433 | The same for the parts of a multipart |
| MimeTree.MessageIsViewed | cgi-cxx/nmail-0.1.76/view_message.cpp:393-439 | Viewing a well-formed nested message meets each of its parts once, in pre-order, each at its own offset |
| MimeTree.LinkLeadsToPart | cgi-cxx/nmail-0.1.76/view_attachment.cpp:117-238 | The finder told to look for p stops at the offset of the body of the p-th part of the tree in pre-order, and finds nothing for other numbers (section 5.1 of RFC 2046) |
| Address.Strpcbrk | cgi-cxx/nmail-0.1.76/custom_string.cpp:13-29 | The first character outside the set, none when all are in it |
| Address.Strrpcbrk | cgi-cxx/nmail-0.1.76/custom_string.cpp:58-78 | The last character outside the set, none when all are in it |
| Address.Strpbrk | cgi-cxx/nmail-0.1.76/addr.cpp:87-91 | The first character in the set, none when none is |
| Address.Strrchr | cgi-cxx/nmail-0.1.76/addr.cpp:101-104 | The last occurrence of a character |
| Address.FindDelimiter | cgi-cxx/nmail-0.1.76/addr.cpp:82-91 | The delimiter that ends the first address, one between the first two quotes passed over |
| Address.CutBrackets | cgi-cxx/nmail-0.1.76/addr.cpp:121-123 | NULs at the brackets leave the two strings before and between them |
| Address.Strip | cgi-cxx/nmail-0.1.76/addr.cpp:126-147 | In place, a string without blanks and quotes at its ends, nothing outside it changed |
| Address.FillFromString | cgi-cxx/nmail-0.1.76/addr.cpp:99-165 | Name and address out of the one address in the buffer |
| Address.FillAddrInPlace | cgi-cxx/nmail-0.1.76/addr.cpp:63-168 | Name, address and the place of the rest, as a function of the string in the buffer |
| Address.LineDelimiter | cgi-cxx/nmail-0.1.76/addr.cpp:82-91 | A printed line is one address exactly when no delimiter follows a quote inside the name or is in the address |
| Address.StrippedName | cgi-cxx/nmail-0.1.76/addr.cpp:137-147 | The name comes back exactly when it neither begins nor ends with a stripped character |
| Address.StrippedEmail | cgi-cxx/nmail-0.1.76/addr.cpp:126-134 | The address between the brackets is kept exactly when it is not empty and neither end is stripped |
| Address.LineFills | cgi-cxx/nmail-0.1.76/addr.cpp:99-157 | The address comes back exactly when moreover it has no <, and the name is then what stands before it |
| Address.LineIsRead | cgi-cxx/nmail-0.1.76/addr.cpp:63-168 | A printed line gives back its name and address if and only if the name keeps its ends and has no delimiter behind a quote, and the address is not empty, keeps its ends and has no < and no delimiter |
| Address.ValidIsPlain | cgi-cxx/nmail-0.1.76/addr.cpp:281-318 | Which texts valid_email accepts, in bytes: none of fifteen special characters, one @ not at the start, behind it a dot, and no dot at either end, behind the @, or doubled behind the @ |
| Address.BareText | cgi-cxx/nmail-0.1.76/addr.cpp:137-165 | A text without delimiters that lacks a bracket, with blanks and quotes around it: an address and no name if it is such a text, otherwise a name and no address |
| Address.AddressAlone | cgi-cxx/nmail-0.1.76/addr.cpp:159-165 | A text without special characters is read as an address if and only if it has such an @ and dots, and otherwise as a name |
| Address.NameAlone | cgi-cxx/nmail-0.1.76/addr.cpp:159-165 | A text without brackets, delimiters and @ whose ends are kept is read as a name |
| Address.BracketedText | cgi-cxx/nmail-0.1.76/addr.cpp:99-157 | Name and address around brackets are read, without the blanks and quotes about them, whatever follows |
| Address.FirstOfMany | cgi-cxx/nmail-0.1.76/addr.cpp:87-97 | Of addresses joined by a comma or semicolon the first is read as if alone, and the rest begins behind the delimiter |
| Address.FirstOfManyQuoted | cgi-cxx/nmail-0.1.76/addr.cpp:82-97 | The same when the first has delimiters inside its first pair of quotes |
| AddressBook.OrderChains | cgi-cxx/nmail-0.1.76/preferences.cpp:592-611 | The order of entries, nameless first, then by name and address without regard to case, is transitive |
| AddressBook.EqualIsSameText | cgi-cxx/nmail-0.1.76/preferences.cpp:598-601 | Two texts compare as equal exactly when they have the same length and each two bytes are equal or a letter in both cases |
| AddressBook.FirstDifferenceDecides | cgi-cxx/nmail-0.1.76/preferences.cpp:596-611 | Otherwise the first difference decides, capitals counted as small letters, and a shorter text comes before its continuations |
| AddressBook.OrderGoesBy | cgi-cxx/nmail-0.1.76/preferences.cpp:592-611 | Entries without a name come first, by address; others by name, and by address where the names are the same but for case; equal are exactly those that differ in case only |
| AddressBook.CaseIsNoMatter | cgi-cxx/nmail-0.1.76/preferences.cpp:563-711 | Concretely: B is put behind a, and deleting bob deletes Bob |
| AddressBook.MissingAddressCrashes | cgi-cxx/nmail-0.1.76/preferences.cpp:596-683 | A line without an address makes both scans compare a null pointer exactly when its name and the one looked for are the same but for case, or both missing |
| AddressBook.WrittenHead | cgi-cxx/nmail-0.1.76/preferences.cpp:415 | The bytes that head the book |
| AddressBook.WrittenLines | cgi-cxx/nmail-0.1.76/preferences.cpp:388-402 | The bytes of an entry's line, with a name and without |
| AddressBook.InsertKeepsSorted | cgi-cxx/nmail-0.1.76/preferences.cpp:563-630 | Adding an entry keeps a sorted book sorted |
| AddressBook.FindAddrBookStart | cgi-cxx/nmail-0.1.76/preferences.cpp:532-554 | Stops behind the line that heads the book, at the end when there is none |
| AddressBook.FindNextEmailOrder | cgi-cxx/nmail-0.1.76/preferences.cpp:563-630 | The place of the first entry that comes after the new one, with the errors of unreadable lines |
| AddressBook.FindEmailPosition | cgi-cxx/nmail-0.1.76/preferences.cpp:634-711 | The line of the first entry with the same name and address up to case |
| AddressBook.AddPrefEmail | cgi-cxx/nmail-0.1.76/preferences.cpp:373-433 | The file with the entry's line put in its place, the head of the book appended first when it is missing; where the splice is not covered, what its loop leaves |
| AddressBook.ShortLineIsCovered | cgi-cxx/nmail-0.1.76/preferences.cpp:422-423 | A line of at most the largest buffer is put in its place whatever the file |
| AddressBook.DeletePrefEmail | cgi-cxx/nmail-0.1.76/preferences.cpp:437-466 | The file without the entry's line, unchanged with an error when there is none |
| AddressBook.OrderIsRank | cgi-cxx/nmail-0.1.76/preferences.cpp:578-624 | In a file that holds a book the scan stops where the list of entries says |
| AddressBook.PositionIsMatch | cgi-cxx/nmail-0.1.76/preferences.cpp:653-708 | In such a file the position is that of the first matching entry of the list |
| AddressBook.AddInserts | cgi-cxx/nmail-0.1.76/preferences.cpp:373-433 | Adding changes the list of entries by one insertion in order and nothing else in the file |
| AddressBook.DeleteRemoves | cgi-cxx/nmail-0.1.76/preferences.cpp:437-466 | Deleting takes the first matching entry out of the list and nothing else out of the file |
| AddressBook.AddThenDelete | cgi-cxx/nmail-0.1.76/preferences.cpp:563-711 | On a sorted list adding and deleting restores it exactly when entries equal up to case are equal |
| AddressBook.AddThenDeleteRestores | cgi-cxx/nmail-0.1.76/preferences.cpp:373-466 | Adding and then deleting succeeds and restores every byte of the file exactly under that condition, in particular without a duplicate |
| AddressBook.NoHeadIsPreamble | cgi-cxx/nmail-0.1.76/preferences.cpp:532-554 | A file of complete lines in which no head is found can stand before one |
| AddressBook.UnfinishedHidesHead | cgi-cxx/nmail-0.1.76/preferences.cpp:532-554 | Behind an unfinished line the head that is appended is not found |
| AddressBook.AddWithoutBook | cgi-cxx/nmail-0.1.76/preferences.cpp:373-466 | A file without a book gets the head and the entry at its end; the book is found again if and only if the file was empty or ended in a newline, and then deleting the entry leaves the file with the head, while otherwise it fails and changes nothing |
| AllPaths.PathsListed | DataStructure/grafos/grafo4.cxx:55-83 | From any vertex and set of visited ones, each simple path through unvisited vertices is listed once for every way through repeated edges, and nothing else is |
| AllPaths.ViaListed | DataStructure/grafos/grafo4.cxx:73-78 | The same for the paths through the neighbours still to come |
| AllPaths.SimplePathIsPath | DataStructure/grafos/grafo4.cxx:33-34 | The recursive notion of path is the plain one: edges from s to d and no vertex twice |
| AllPaths.WaysPositive | DataStructure/grafos/grafo4.cxx:75-77 | Every simple path is listed at least once |
| AllPaths.WaysAtMostOne | DataStructure/grafos/grafo4.cxx:75-77 | Without repeated edges no path is listed twice |
| AllPaths.PathsAreExact | DataStructure/grafos/grafo4.cxx:33-49 | Exactly the simple paths from s to d are listed, each once when no adjacency list repeats a vertex |
| AllPaths.PrintAllPathsUtil | DataStructure/grafos/grafo4.cxx:55-83 | Terminates, restores visited, path index and the path so far, and prints that path followed by each listed one |
| AllPaths.PrintAllPaths | DataStructure/grafos/grafo4.cxx:34-49 | Prints exactly the simple paths from s to d, each once when no adjacency list repeats a vertex |
| CgiForm.String2Url | cgi-cxx/cgiemail-1.6/cgilib.c:371-390 | The whole string in its printed form |
| CgiForm.OneByteFor | cgi-cxx/cgiemail-1.6/cgilib.c:368-390 | Letters, digits and / : $ - _ @ . are written as they are and a blank as a plus; every other byte begins with a percent sign |
| CgiForm.UrlSpells | cgi-cxx/cgiemail-1.6/cgilib.c:371-390 | A printed string is a spelling of itself, bytes from 128 up excepted, of which only the first two digits are read as such |
| CgiForm.RunHex | cgi-cxx/cgiemail-1.6/cgilib.c:247-256 | Percent and two hexadecimal digits, each with a small or a capital letter, store the byte 16 a + b |
| CgiForm.RunSpelled | cgi-cxx/cgiemail-1.6/cgilib.c:247-284 | However a name or value is spelled, with a plus, with one or two digits of either case or with the bytes as they are, the scan stores it |
| CgiForm.EverySpells | cgi-cxx/cgiemail-1.6/cgilib.c:247-284 | Every text without separators is a spelling of some string |
| CgiForm.SpellsOnce | cgi-cxx/cgiemail-1.6/cgilib.c:247-284 | It spells only one |
| CgiForm.RunPair | cgi-cxx/cgiemail-1.6/cgilib.c:230-285 | A spelled pair becomes one field with its name and value in the storage |
| CgiForm.RunPairs | cgi-cxx/cgiemail-1.6/cgilib.c:230-285 | A spelled list becomes as many fields, and fails exactly from two more than maxfields on |
| CgiForm.SpelledIsParsed | cgi-cxx/cgiemail-1.6/cgilib.c:207-309 | What parsing any spelling of a list of pairs gives: these pairs with their values fixed and the special ones where they fit; a field behind the array from one pair more than maxfields on, with the error from two more on |
| CgiForm.FieldIsParsed | cgi-cxx/cgiemail-1.6/cgilib.c:207-309 | A query of one field, spelled in any way, is parsed to its name and its fixed value |
| CgiForm.SlashIsParsed | cgi-cxx/cgiemail-1.6/cgilib.c:247-256 | Concretely: a=%2F and a=%2f both give a slash |
| CgiForm.QueryIsParsed | cgi-cxx/cgiemail-1.6/cgilib.c:207-309 | What parsing a printed list gives: the returned pairs and the special ones where they fit; a field behind the array from one pair more than maxfields on, with the error from two more on |
| CgiForm.FixedHasNoReturn | cgi-cxx/cgiemail-1.6/cgilib.c:171-184 | The fix leaves no CR and strings without CR alone |
| CgiForm.FixedAtReturn | cgi-cxx/cgiemail-1.6/cgilib.c:171-184 | Up to the first CR a string stays; a CR LF becomes a newline, and so does a CR by itself |
| CgiForm.ValueReturns | cgi-cxx/cgiemail-1.6/cgilib.c:171-184 | A value comes back exactly when it is 7-bit without CR |
| CgiForm.RoundTrip | cgi-cxx/cgiemail-1.6/cgilib.c:207-309 | Printing and parsing gives the same pairs exactly when they are plain and at most maxfields |
| CgiForm.NonEmptyFits | cgi-cxx/cgiemail-1.6/cgilib.c:105-107 | Pairs of non-empty strings never exceed maxfields |
| CgiLimits.PiecesCountAnds | cgi-cxx/cgiemail-1.6/cgilib.c:269-282 | There is one more piece than there are & bytes |
| CgiLimits.LastPiece | cgi-cxx/cgiemail-1.6/cgilib.c:230-240 | The last piece begins no field exactly for an empty query and one that ends in & |
| CgiLimits.SetsOfPieces | cgi-cxx/cgiemail-1.6/cgilib.c:241-268 | A field gets its value exactly when its piece holds a = |
| CgiLimits.TokenIsPlain | cgi-cxx/cgiemail-1.6/cgilib.c:247-284 | A character written with several bytes holds no separator |
| CgiLimits.RunCounts | cgi-cxx/cgiemail-1.6/cgilib.c:230-289 | From any state of the scan, the number of fields and which values are set are those of the pieces still to come, and it stops exactly when these are too many |
| CgiLimits.FieldsBegun | cgi-cxx/cgiemail-1.6/cgilib.c:224-289 | A query that is not refused begins one field for each piece, set when that holds a = |
| CgiLimits.ParseStaysInsideIff | cgi-cxx/cgiemail-1.6/cgilib.c:207-309 | For every query: a field is begun behind the array if and only if more than maxfields pieces begin one, all but an empty last piece doing so, with the error exactly from maxfields + 2 pieces on; it is parsed inside the allocations, reading only values that were set, if and only if at most maxfields pieces begin a field and each has a = |
| CgiLimits.NameAloneIsUnset | cgi-cxx/cgiemail-1.6/cgilib.c:291-293 | Concretely: the query a leaves its value unset |
| CgiLimits.ThreeFieldsOverrun | cgi-cxx/cgiemail-1.6/cgilib.c:272-279 | Concretely: the query =&=&= begins a field behind the array, and no error is reported |
| CgiLimits.RefusedTooLate | cgi-cxx/cgiemail-1.6/cgilib.c:232-279 | Concretely: the query &&&&& is refused after it has begun a field behind the array |
| CgiForm.CloseUp | cgi-cxx/cgiemail-1.6/cgilib.c:180 | Copying the string behind p to p leaves out one byte and changes nothing else |
| CgiForm.FixOneKeeps | cgi-cxx/cgiemail-1.6/cgilib.c:178-182 | One round changes the first CR as the whole fix would, and brings the end nearer |
| CgiForm.FixRound | cgi-cxx/cgiemail-1.6/cgilib.c:180-181 | One round in place |
| CgiForm.FixCrlf | cgi-cxx/cgiemail-1.6/cgilib.c:172-184 | In place, the string with every CR LF and every other CR as LF, nothing outside it changed |
| CgiParser.LaidEnter | cgi-cxx/cgiemail-1.6/cgilib.c:234-246 | Noting the beginning of a name or value keeps the strings apart |
| CgiParser.LaidAfter | cgi-cxx/cgiemail-1.6/cgilib.c:247-284 | So does every character stored |
| CgiParser.LaidHolds | cgi-cxx/cgiemail-1.6/cgilib.c:287-289 | At the end the fields point to NUL-terminated strings that do not overlap |
| CgiParser.Form.constructor | cgi-cxx/cgiemail-1.6/cgilib.c:105-110 | The source up to its first NUL, and the sizes allocated for it |
| CgiParser.Form.BeginString | cgi-cxx/cgiemail-1.6/cgilib.c:234-246 | Notes the beginning of a name, counting a field, or of a value |
| CgiParser.Form.ScanToken | cgi-cxx/cgiemail-1.6/cgilib.c:234-284 | One pass of the loop stores inside the storage and leaves the run of the parser the same, or stops at one & too many, with a field begun behind the array |
| CgiParser.Form.Scan | cgi-cxx/cgiemail-1.6/cgilib.c:224-289 | The loop never leaves the storage, and storage and fields are what the run of the parser says |
| CgiParser.Form.Finish | cgi-cxx/cgiemail-1.6/cgilib.c:287-289 | Ends the last string and sets a value that is still due |
| CgiParser.Form.FixValue | cgi-cxx/cgiemail-1.6/cgilib.c:291-293 | Fixes one value and leaves all other strings as they are |
| CgiParser.Form.FixValues | cgi-cxx/cgiemail-1.6/cgilib.c:291-293 | Fixes every value, and gets through exactly when all were set |
| CgiParser.Form.ParseFields | cgi-cxx/cgiemail-1.6/cgilib.c:224-308 | Scan, fix and fields together give the parse function of the source |
| CgiParser.Form.ParseForm | cgi-cxx/cgiemail-1.6/cgilib.c:207-309 | For every source the form holds what the parse function says; the slot for the memory behind the array is used if and only if more than maxfields pieces of the source begin a field, be it refused or not, and the pieces tell which error it runs into |
| CircularList.LinkedList.Add | DataStructure/linked_list/example5.cxx:45-65 | The list becomes the same nodes and a new one with d |
| CircularList.LinkedList.MakeCircular | DataStructure/linked_list/example5.cxx:107-122 | A list of at least two nodes becomes a ring of the same nodes with the same data, a shorter one stays |
| CircularList.LinkedList.IsCircular | DataStructure/linked_list/example5.cxx:124-142 | Terminates on every finite heap of nodes, and is true exactly when the list enters a cycle, exactly when it does not end |
| CircularList.LinkedList.GoesOnEqually | DataStructure/linked_list/example5.cxx:134-140 | From equal nodes the list goes on equally |
| CircularList.LinkedList.CycleNeverEnds | DataStructure/linked_list/example5.cxx:134-140 | A list that reaches a node again never ends |
| CircularList.LinkedList.LongListsRepeat | DataStructure/linked_list/example5.cxx:134-140 | A list longer than the number of nodes reaches one again |
| CircularList.LinkedList.EndsOrCycles | DataStructure/linked_list/example5.cxx:124-142 | Every list ends or enters a cycle, not both |
| CircularList.LinkedList.CursorsMeet | DataStructure/linked_list/example5.cxx:134-140 | At some step the slow and the fast cursor are on the same node or both past the end |
| CircularList.LinkedList.RingIsCircular | DataStructure/linked_list/example5.cxx:107-142 | A ring enters a cycle and does not end |
| RadixSort.GetMax | DataStructure/sort/radix_sort.cxx:8-16 | An element that no other exceeds |
| RadixSort.CountDigits | DataStructure/sort/radix_sort.cxx:23-27 | How many elements have each digit |
| RadixSort.SumCounts | DataStructure/sort/radix_sort.cxx:29-32 | Where the elements of each digit end |
| RadixSort.PlacedNext | DataStructure/sort/radix_sort.cxx:35-39 | From the end, each element goes to the one place that stability gives it, where nothing was put before |
| RadixSort.PlaceElement | DataStructure/sort/radix_sort.cxx:37-38 | One step of that in place |
| RadixSort.BuildOutput | DataStructure/sort/radix_sort.cxx:34-39 | The output is the input sorted by one digit, equal digits in their old order |
| RadixSort.CountSort | DataStructure/sort/radix_sort.cxx:18-45 | The array sorted by one digit, stably |
| RadixSort.ByDigitPermutes | DataStructure/sort/radix_sort.cxx:18-45 | A pass is a permutation |
| RadixSort.ByDigitSorts | DataStructure/sort/radix_sort.cxx:54-58 | A pass over an array sorted modulo a power of ten leaves it sorted modulo the next |
| RadixSort.ModByDigit | DataStructure/sort/radix_sort.cxx:27 | The digit is the leading part of the value modulo the next power of ten |
| RadixSort.Radixsort | DataStructure/sort/radix_sort.cxx:47-59 | A sorted permutation; the power of ten stays in an int exactly when the maximum is below a thousand million |
| Calendar.Daystotal | Date/validate/example5.cxx:38-59 | The loop adds the days of earlier years and months |
| Calendar.YearsClosed | Date/validate/example5.cxx:47-57 | The days of a range of years in closed form |
| Calendar.DaystotalIsJdn | Date/validate/primeirodia2.c:31-35 | The closed-form Julian Day Number is the looped day count plus 1721425 from the year 1 on |
| Calendar.NextDayIsOneMore | Date/validate/primeirodia2.c:31-35 | The number goes up by exactly one from each date to the next |
| Calendar.DayOfWeekIsJdn | Date/validate/example1.cxx:93-98 | From March of the year 0 on the table gives (JDN + 1) mod 7 and both programs name the same day |
| Calendar.DayOfWeekIsJdnIff | Date/validate/example1.cxx:93-98 | For every year, with division towards zero: the table gives (JDN + 1) mod 7 if and only if the year counted from March is not negative, or is a leap year with a sum that is not negative or divisible by 7 |
| Calendar.YearZeroDiffers | Date/validate/example1.cxx:93-98 | Concretely: for 1 January of the year 0 the table says Sunday instead of Saturday |
| Calendar.LeapTermsAre | Date/validate/primeirodia2.c:31-35 | Division towards zero adds one day exactly for negative years that are no leap years |
| Calendar.ClosedFormIsJdnIff | Date/validate/primeirodia2.c:31-35 | The closed form as computed is the Julian Day Number if and only if its shifted year is not negative or is a leap year |
| Calendar.WeekdaysAgreeIff | Date/validate/primeirodia2.c:9-37 | For int years the index from ints and the one from a size_t agree if and only if the number is not negative |
| Calendar.DaysInto | Date/validate/example5.cxx:74-83 | The day of the year |
| Calendar.LeapOfNextIs | Date/validate/example5.cxx:86 | With year++ for its argument the macro takes every year divisible by 4 for a leap year and moves on two years |
| Calendar.DistDias | Date/validate/example5.cxx:61-89 | The distance as an unsigned long: 366 days for each year divisible by 4 that the loop comes to, with the year after it skipped, and 365 for each other one |
| Calendar.CountedIff | Date/validate/example5.cxx:85-86 | The days counted for a range of years are at most one too many, and right if and only if no multiple of 4 comes two years or more before the end and the last year, if divisible by 4, is a leap year |
| Calendar.DistanceIsDifferenceIff | Date/validate/example5.cxx:61-89 | For int years the distance is the difference of the Julian Day Numbers, modulo the word, if and only if the years are in order and that condition holds for the years between |
| Calendar.TwoYearsLoseOne | Date/validate/example5.cxx:61-89 | Concretely: from 1 January 2004 to 1 January 2006 the program gives 366 days instead of 731 |
| Calendar.ComputeRanges | Date/pascoa/pascoa1.cxx:36-47 | The ranges of the terms, none of them from a negative dividend |
| Calendar.LastTerm | Date/pascoa/pascoa1.cxx:47 | The last term is 1 exactly for the Sundays that would come a week late |
| Calendar.Corrections | Date/pascoa/pascoa1.cxx:39-42 | The computation's century terms are the calendar's solar and lunar corrections |
| Calendar.FullMoonIs | Date/pascoa/pascoa1.cxx:36-43 | The full moon given by golden number, corrections and epact is the term h after 21 March, a day earlier for the two values the calendar moves |
| Calendar.EasterFollowsFullMoon | Date/pascoa/pascoa1.cxx:36-49 | Easter is a date from 22 March to 25 April, one to seven days after the full moon of the calendar's golden numbers and epacts |
| Calendar.EasterIsSunday | Date/pascoa/pascoa1.cxx:36-49 | The table of weekdays gives Sunday for it in every year from 0 on |
| Calendar.EasterIsFirstSunday | Date/pascoa/pascoa1.cxx:36-49 | No date between that full moon and Easter is a Sunday |

## Left out

- Input and output around the cores: pages, menus, sockets, sendmail, system log, stdio buffering, failing reads, writes, seeks and allocations, NULL arguments.
- Splice.InsertLineInFile: requires a splice whose loop ends, as SpliceEndsIff characterises; for others there is no result to describe. A NULL line is an empty one.
- AddressBook.AddPrefEmail: requires an insertion whose splice ends, in particular any line of less than two of the largest buffers.
- AddressBook: changing an entry and the other preferences; the outcome Crash stands for a line without an address, whose NULL the original compares; an empty name is printed like a missing one and read back as missing.
- DeleteMessages and MimeWalk: the fields of a header, dates and content types among them, are an arbitrary function of the header's bytes.
- MimeWalk.ViewMessageBody: has no result for alternative multiparts, where the original indexes memory before its part number, and for message/rfc822 parts (the default inside a digest), which the two walks leave at different borders.
- MimeWalk.FindAttachment: has no result for these two types either.
- MimeWalk: what a file gives that ends before a border; the original then looks at its last line again and again, or uses a header that is not there, and the walks have no result.
- MimeWalk: HTML, decoding of quoted-printable text, and storing the header of the part found.
- Base64: the header lines printed before the encoded text. Masks and shifts are written with division and remainder.
- FormFile: acquiring the other form data.
- CgiForm and CgiLimits: a query is a C string; Form takes its source up to the first NUL, and what the functions say of sequences with a NUL inside says nothing of the program.
- CgiForm: reading the query from the environment or standard input; the four special pairs, with date and version, are a parameter. For %0x, of which the scan of a hexadecimal number makes nothing, the value is 0; printing the error message is not modelled.
- SmartPointers: values are step programs and not classes, since threads interleave inside the operations. Counts are unbounded; casting constructors and pointees that themselves hold handles are not modelled; a mutex call is part of its atomic step, so unlocking a counter that another thread has freed meanwhile is not seen. Callers do not write a handle that another thread is using.
- FordFulkerson: opposite capacities are assumed to add up to an int, which keeps the residuals in range; the number of vertices is a parameter instead of the constant 6; printing.
- RadixSort: integers are unbounded; where the power of ten would overflow an int is stated in Radixsort.
- Calendar: overflow of int for huge years; Easter for years below 0; weekdays are indices, the names are not modelled.
- Calendar: the other Easter formulas and leap-year tests of the repository, which deviate from the calendar.
- AllPaths: graphs are adjacency lists given as values; the two arrays are never released in the original.
- CircularList: removing, clearing and displaying.
- The remaining programs: the telephone program, minimum stack, list intersection, elementary stacks, queues and sorts, samples for toolkits and the kernel.
