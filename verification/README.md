# A verified model of the termus player core

termus is a music player written in C. This project models its hand-written algorithms and protocols in Dafny and
proves what they keep.

* Ordered containers: the red-black tree with parent links and recolouring (`RbShape`, `RbTree`), the sorted track list
  with a tree of run starts on top (`TrackOrder`, `TrackList`), the shuffle order (`Shuffle`), the in-place list merge sort
  (`MergeSort`), and the order laws they share (`Order`).
* Concurrency: the first-come-first-served lock (`FifoMutex`) and the job worker (`Worker`) as transition systems with one
  step per atomic action, and the chunk ring between decoder and output (`ChunkRing`).
* The player state machine (`Player`) and the account of which bytes were scaled how often (`Scaling`).
* The filter language: glob patterns (`Glob`), the expression parser and evaluator (`Expr`),
  expressions while they are typed (`Typing`), named filters (`Filters`).
* The library view kept up to date by removing rows only (`LibView`).
* Byte-level code: UTF-8 (`Utf8`, `Counts`), the line editor (`CmdLine`), path normalisation (`PathStrip`), the cache file (`Cache`).
  `Common` holds the types they share.

## How the code is represented

Tree nodes live in an arena, a map from addresses to records with parent, colour and children; a ghost tree says what the
links mean, and a zipper (`Ctx`) says where in it a subtree hangs. The mirrored branches of the C code are one branch with
a `Side`. The sorted list and the list of glob items are sequences that methods reassign; the merge sort works on the
`next` and `prev` links themselves. The ring is an array of chunks; each thread holds its window between its steps, without
the lock, while the other one runs. The path is a NUL-terminated array changed in place.

What device, decoder and play list answer is an argument of any value; the moment at which a buffer is flushed is
arbitrary, and random draws are parameters. Track comparison is any total preorder, folded character comparison any relation. Cache file bytes are plain
integers, the strings in it free of NUL.

A waiter of the lock lives on its thread's stack, so its address is the thread and is reused by the next call.

## Where the code and its promises differ

* `sorted_list_remove_track` does not clear the tree node it erases. `SortedList.Rebuild` states exactly when the marks are
  still right afterwards, and `MarksLost` gives an input for which they are not. Order and tree contents hold always.
* An empty list that is rebuilt would be linked to a head on the stack: `MergeSort.SpliceEmpty` and `SpliceOther` say that
  this happens for the empty list and for no other.
* A live filter without words matches nothing, and is not cleared when a word is typed after it; `SpaceThenWord` is such a
  history. `src/library/expr.h` promises of harmless expressions that results shrink when text is put around them, but a
  number followed by `-` is harmless and opens a range: `RangeOpened`. `Library.SetLive` states exactly when the view is
  right; another operator and operand typed on are never wrong (`TypedOn`, `TypedOperand`), nor digits or characters added
  to the last operand of a harmless expression, unless its operator is `!=` (`Typing`).
* Soft volume or replaygain switched on again scales bytes twice that were scaled and not yet written. The positions decide
  it: when no byte was due twice before `Player.SetSoftVol` or `Player.SetRg`, none is afterwards iff scaling was on or
  `scale_pos <= consumer_pos`. `Player.Run` says so of whole histories; `ScaledTwice` shows that the condition is needed,
  and `Unsettle` that playback gets there.
* A repeated file counts from position 0 again even if the decoder refuses to rewind; everywhere else the position follows
  the decoder. `Player.HandleEof` says where the decoder then stands.
* The line editor keeps its character counts by adding and subtracting one. On lines that are not valid UTF-8 that goes wrong
  exactly when pieces join into one character or a character is not removed whole: `CmdLine.InsertCh`, `Backspace` and
  `DeleteCh` have the condition for any line, `HalvesJoin` and `BeyondLast` are inputs. Valid characters keep the counts right
  on any line (`Counts.InsertValid`).
* `path_strip` takes the first character of a path without a slash in front for the root. `PathStrip.RelativeRight` says that
  the result is right iff `..` never takes back the first component, `FirstTakenBack` gives a path for which it is wrong.
* Prebuffering can ask for zero bytes, which `ip_read` does not allow, when a quarter of a second is at least one chunk
  more than the ring: `ChunkRing.Prebuffer` and `LimitFits` say exactly when, `LimitBeyond` gives a format.
* Glob patterns compare folded base characters, so a plain letter equals an accented one; but the text is passed by the byte
  length of the pattern. `Glob.Match` decides the meaning when equal characters in pattern and text have equally many bytes;
  `SizesMatter` gives, for any two equal characters of different size, a match that is not found.
* A filter name used twice in an expression is refused as recursive, because visited marks are not taken back:
  `Filters.ParseFilter` states exactly what is accepted, `UsedTwice` gives the example.
* `valid_cache_entry` accepts an entry with a single string although reading it needs three. `EntryInside` states that an
  accepted entry is read inside its bytes iff it has not exactly one NUL, `OneString` gives one that is not, and no written
  file contains any (`RoundTrip`). The outcome `Overrun` marks the place; what the code reads there is not modelled.

## Model

| member | source | states |
|---|---|---|
| `RbShape.LogarithmicHeight` | src/common/rbtree.c:45-238 | with a black root, no red child of red and equal black heights, n nodes give height h with 2^h <= (n+1)^2, that is at most 2*log2(n+1) |
| `RbShape.BalancedSize` | src/common/rbtree.c:45-238 | a subtree of black height b has at least 2^b - 1 nodes and height at most 2b (one more below a red root) |
| `RbShape.PlugInOrder` | src/common/rbtree.c:267-317 | the in-order sequence is what lies before a subtree, the subtree, what lies after it |
| `RbShape.BesideMiddle` | src/common/rbtree.c:267-317 | in a sequence without repeats the neighbour of an element is the one directly before or after it, NULL at the ends |
| `RbShape.Locate` | src/common/rbtree.c:267-317 | every node of a tree is the root of a subtree at one place of it |
| `RbTree.Arena.RotateLinks` | src/common/rbtree.c:3-43 | only the links of a rotation change, all of them, in both directions |
| `RbTree.Arena.Rotate` | src/common/rbtree.c:3-43 | a rotation at any place of a tree keeps the tree well linked, its in-order sequence and everything outside it |
| `RbTree.Arena.InsertColor` | src/common/rbtree.c:45-104 | from a tree whose only fault is a red node under a red parent, all red-black invariants hold again and the in-order sequence is unchanged |
| `RbTree.Arena.PushRedUp` | src/common/rbtree.c:50-70 | the red uncle case moves the fault two levels up and keeps the in-order sequence and black heights |
| `RbTree.Arena.RotateRedUp` | src/common/rbtree.c:71-99 | the black uncle cases end the repair |
| `RbTree.Arena.EraseColor` | src/common/rbtree.c:106-174 | from a subtree one black too short, all red-black invariants hold again and the in-order sequence is unchanged |
| `RbTree.Arena.EraseBelowBlack` | src/common/rbtree.c:111-168 | one round of the repair ends it or moves the shortage to the parent |
| `RbTree.Arena.Unlink` | src/common/rbtree.c:222-237 | a node with at most one child is taken out, its child takes its place in both directions, nothing else changes |
| `RbTree.Arena.SpliceSuccessor` | src/common/rbtree.c:187-220 | the successor takes over place, colour and children of the erased node, and its own child takes its place |
| `RbTree.Arena.Replace` | src/common/rbtree.c:319-332 | rb_replace_node: the new node stands in the tree exactly where the victim stood, with its links and colour |
| `RbTree.Arena.Erase` | src/common/rbtree.c:176-238 | the tree is well linked and red-black again, its in-order sequence is the old one without the node, and only nodes of the tree were touched |
| `RbTree.Arena.LinkNode` | src/common/rbtree.h:63-70 | a new red leaf hangs at the hole that was found; nothing else of the tree changes |
| `RbTree.Arena.Insert` | src/common/rbtree.c:45-104 | linking a new node at a hole and recolouring gives a red-black tree whose sequence has the node exactly at the hole |
| `RbTree.Arena.End` | src/common/rbtree.c:243-265 | rb_first and rb_last are the ends of the in-order sequence, NULL for the empty tree |
| `RbTree.Arena.Neighbour` | src/common/rbtree.c:267-317 | rb_next and rb_prev are the in-order successor and predecessor, NULL at the ends |
| `Order.StablySortedPermutes` | src/common/mergesort.c:4-66 | sortedness with equal classes makes the result a permutation of the input |
| `Order.StablySortedUnique` | src/common/mergesort.c:4-66 | there is only one stable sort of a sequence under a total preorder |
| `TrackOrder.InsertPos` | src/core/track.c:221-232 | an equal track goes after its run for a tiebreak >= 0 and before it for a negative one: all earlier tracks fail the stop test, the next one meets it |
| `TrackOrder.InsertedSorted` | src/core/track.c:183-233 | insertion keeps the list sorted under the key preorder |
| `TrackOrder.FirstsStrict` | src/core/track.c:193-206 | starts of different runs differ strictly, so the tree is a search tree without equal keys |
| `TrackOrder.FirstsAt` | src/core/track.c:183-257 | a track is a start iff it is first in the list or differs from the track before it |
| `TrackOrder.FirstsNewKey` | src/core/track.c:217-219 | a track with a key of its own joins the starts exactly at its place |
| `TrackOrder.FirstsEqualBefore` | src/core/track.c:208-212 | a track put before its equals replaces the start of their run |
| `TrackOrder.FirstsEqualAfter` | src/core/track.c:213-216 | a track put after its equals leaves the starts alone |
| `TrackOrder.FirstsRemoved` | src/core/track.c:235-257 | removing a track changes the starts not at all, to its successor, or by one, exactly as the run around it demands |
| `TrackOrder.InsertedAllStable` | src/core/track.c:290-305 | inserting every track in turn with tiebreak 0 is a stable sort |
| `TrackOrder.FirstsGrow` | src/core/track.c:290-305 | such an insertion adds at most one start, the inserted track, and only when its key is new |
| `TrackOrder.MarksLost` | src/core/track.c:253-254 | the mark `not in the tree` can be lost: two tracks told apart by the old keys and not by the new ones break it |
| `TrackList.SortedList.Search` | src/core/track.c:188-206 | the descent finds the equal node if there is one, else the hole with everything smaller before it and larger after it |
| `TrackList.SortedList.TakeOver` | src/core/track.c:208-212 | rb_replace_node and RB_CLEAR_NODE: the new track stands where the old start stood, the old one is marked |
| `TrackList.SortedList.AddToTree` | src/core/track.c:183-219 | after the tree half of an insertion the tree holds the starts of the list with the track inserted, and the insertion point is the right one |
| `TrackList.SortedList.Add` | src/core/track.c:183-233 | the list is the old one with the track at its place, the tree holds exactly the first track of every run in list order, only they and the track changed, and marks are kept for a fresh track |
| `TrackList.SortedList.RemoveFromTree` | src/core/track.c:238-254 | after the tree half of a removal the tree holds the starts of the remaining list; the removed track is marked iff it was not erased from the tree |
| `TrackList.SortedList.Remove` | src/core/track.c:235-257 | the list is the old one without the track, list and tree agree again, marks of all other tracks are kept |
| `TrackList.SortedList.MoveFirst` | src/core/track.c:294-302 | one round of the rebuild takes the first track out of one list and inserts it into the other |
| `TrackList.SortedList.Rebuild` | src/core/track.c:290-305 | the head is linked in again iff the list was not empty; then the new list is the stable sort of the old one under the new keys and the tree holds its starts; the marks are right iff no track with an earlier twin under the new keys was the last of its run under the old ones |
| `TrackList.Run` | src/core/track.c:183-257 | after any history of fresh tracks joining, with either tiebreak, and tracks leaving, the list is sorted and is the one that replaying the calls on a sequence gives, the tree holds its run starts, and exactly the others are marked |
| `Shuffle.ShuffleTree.FindSpot` | src/core/track.c:44-61 | the hole found is directly after `previous`, or at the front |
| `Shuffle.ShuffleTree.MoveAfter` | src/core/track.c:44-63 | shuffle_insert: the order is the old one with `next` moved to directly after `previous` (or to the front), all other order kept |
| `Shuffle.ShuffleTree.Add` | src/core/track.c:326-350 | the track joins the order, all others keep theirs, and positions follow the numbers drawn as long as only additions were made; colliding draws are drawn again |
| `Shuffle.ShuffleTree.Round` | src/core/track.c:358-364 | erasing the current node while iterating leaves the one to visit next in hand |
| `Shuffle.ShuffleTree.Drain` | src/core/track.c:353-367 | every node is visited once, in order, and moves to the new tree |
| `Shuffle.ShuffleTree.Reshuffle` | src/core/track.c:353-367 | the result is a permutation of the same tracks in rising order of the new numbers, each visited exactly once |
| `FifoMutex.MutualExclusion` | src/common/locking.c:50-97 | at no moment of any run are two threads between the return of lock and the release of the mutex |
| `FifoMutex.FirstComeFirstServed` | src/common/locking.c:57-61 | the k-th entry belongs to the k-th tail exchange, at every moment of every run |
| `FifoMutex.StoreTargetLive` | src/common/locking.c:57-61 | the store to old_tail->next hits a waiter still inside fifo_mutex_lock, the one exchanged just before, whose next is still empty |
| `FifoMutex.SignalTargetLive` | src/common/locking.c:83-88 | a signal goes to the next thread due, still inside fifo_mutex_lock |
| `FifoMutex.NoDeadlock` | src/common/locking.c:50-97 | while any thread is inside the three functions, some thread has a step that is neither a new call nor a spurious wake-up |
| `FifoMutex.StepLighter` | src/common/locking.c:50-97 | with a waiter in the queue every step that is neither a new call nor a spurious wake-up lets the first waiter enter or lowers a weight summed over all threads |
| `FifoMutex.EntersSoon` | src/common/locking.c:50-97 | so any waiter enters soon: while no more than k calls have entered, k being its place in the queue, at most twenty such steps per thread were made for each of them and for it, and the entries |
| `FifoMutex.Quiescent` | src/common/locking.c:50-97 | when all threads are outside, tail, head and mutex are as initially and every call has entered |
| `FifoMutex.RunGoesOn` | src/common/locking.c:50-97 | every state with nothing called starts a run, and a run goes on by every step of every thread and by nothing else |
| `FifoMutex.LocksBeforeItReturns` | src/common/locking.c:50-97 | a thread that calls lock, or a yield that gives way, is inside the call at every moment of every run until it has the lock: neither returns without it |
| `FifoMutex.YieldDecides` | src/common/locking.c:90-97 | a yield gives way only while a call that has made its exchange has not entered, and at its look at tail exactly then; otherwise it is back in its section with the lock kept |
| `FifoMutex.YieldGivesWay` | src/common/locking.c:90-97 | when a yield that gave way has the lock again, every call whose tail exchange came before its unlock has entered, itself behind them |
| `FifoMutex.UnlocksForGood` | src/common/locking.c:83-88 | a thread that unlocks is on its way out until it is outside, in every run; it does not lock again by itself |
| `FifoMutex.StepInv` | src/common/locking.c:50-97 | every atomic step of every thread keeps the queue, the links, the ends, the owner and the promise of a signal |
| `FifoMutex.EnterInv` | src/common/locking.c:68-80 | storing head hands over to exactly the next waiter of the queue |
| `Scaling.HandOut` | src/core/player.c:957-984 | handing out bytes keeps the account of how often the rest was scaled, and a byte goes out scaled exactly once iff it was not scaled before scaling was last enabled; `Player.Run` ties that to the two positions |
| `Scaling.RescaleAhead` | src/core/player.c:300-318 | scaling a window touches each byte that is ahead of scale_pos once and no other |
| `Player.SeekInside` | src/core/player.c:1278-1320 | a seek forwards that leaves the track goes on to the next one, iff it is relative and ends behind the last second; every other ends inside, exactly as far on as asked, at the start if that is before it, an absolute one at least five seconds before the end or at the start of a shorter track; refused iff there is no duration or the position asked for is absolute and negative |
| `Player.Player.ProducerPlay` | src/core/player.c:643-685 | the producer ends playing or unloaded, decided by the answers of play list and decoder; from playing or paused it always ends playing; input, track and statuses agree, and the decoder stands at the start unless it was open and could not be rewound |
| `Player.Player.ProducerStop` | src/core/player.c:687-694 | the input is closed and the ring reset iff it was open |
| `Player.Player.Start` | src/core/player.c:1141-1164 | from stopped: plays iff there is a track, the file opens and the device opens; what could not be opened is unloaded or halted, nothing else, and the position is the start iff the input was rewound |
| `Player.Player.ProducerUnload` | src/core/player.c:696-703 | no input remains, closed before it is deleted |
| `Player.Player.ProducerSetFile` | src/core/player.c:714-720 | a closed input for the new file, the old one gone |
| `Player.Player.ConsumerPlay` | src/core/player.c:732-750 | from stopped the consumer plays on a device opened at the format of the input iff the device opens; from paused it always plays |
| `Player.Player.ConsumerPause` | src/core/player.c:769-778 | playing and paused are exchanged, the device stays open and is paused iff the consumer is |
| `Player.Player.ChangeSf` | src/core/player.c:782-811 | the device has the format of the new input and plays, or both sides are stopped, as the device answers; with the old format it plays on without being asked |
| `Player.Player.Stop` | src/core/player.c:1132-1139 | both sides stopped, the file kept |
| `Player.Player.Play` | src/core/player.c:1141-1164 | a stopped player starts as `Start` says and fills the ring first; a playing one plays on, from the start iff its input can be rewound, and the device drops what it held; a paused one resumes at its position and drops nothing; a stream that plays is left alone |
| `Player.Player.Pause` | src/core/player.c:1166-1193 | playing pauses (a stream stops), paused resumes at the same position without losing a byte, stopped starts as `Start` says |
| `Player.Player.SetFile` | src/core/player.c:1201-1225 | the new file is loaded; if something played or was paused it plays iff the file opens and the device opens or already has its format, else what could not be opened is stopped; a stopped player only loads it |
| `Player.Player.PlayFile` | src/core/player.c:1227-1259 | the new file plays from its start iff it opens and the device opens or already has its format; it is unloaded iff it does not open; the device drops what it held of the old one; the ring is filled first iff it plays |
| `Player.Player.Seek` | src/core/player.c:1263-1348 | statuses and track are kept; a stopped player starts as `Start` says, and pauses when it shall not play; it is done iff something is open, the position asked for is inside and the decoder goes there, and decoder and both positions then stand at it; it goes on to the next track iff the seek leads there; what the device held is dropped iff it is done |
| `Player.Player.SeekRunning` | src/core/player.c:1278-1348 | the position computed from seconds in whole bytes, which the decoder is told, and both positions of the consumer set to it iff the decoder goes there |
| `Player.Player.SetOp` | src/core/player.c:1353-1413 | another device takes over in the same state at the same position, paused iff the player is, iff it is selected and opens when needed; otherwise everything is closed; what the old one held is dropped iff it was paused, else played out |
| `Player.Player.SetBufferChunks` | src/core/player.c:1415-1426 | both sides stopped before the ring is replaced |
| `Player.Player.SetSpeed` | src/core/player.c:1550-1641 | playback goes on in the same state and at the same position at the new speed iff the device opens at it, and takes data if playing, else at the old one iff it opens at that, else everything is closed; less than a millionth next to the old speed nothing changes |
| `Player.Player.SetSoftVol` | src/core/player.c:1438-1447 | switching keeps scale_pos >= consumer_pos while enabled; scaled bytes are left ahead unaccounted iff there were some already or scaling was off with scale_pos > consumer_pos |
| `Player.Player.SetRg` | src/core/player.c:1478-1492 | as for soft volume |
| `Player.Player.ScaleSamples` | src/core/player.c:300-318 | its BUG_ON cannot fire, and exactly the bytes past scale_pos are scaled |
| `Player.Player.WriteOut` | src/core/player.c:966-984 | the bytes written advance the position, the rest of the window keeps its scaling, and bytes go out scaled once iff they were not already scaled before scaling was enabled |
| `Player.Player.WriteRounds` | src/core/player.c:894-985 | bytes are written round by round, never more than the ring has or the device takes, until the device is full, the ring is empty, a write fails or the lock is released; the position moves on by exactly their number |
| `Player.Player.WriteFailed` | src/core/player.c:967-982 | the speed is 1.0, and the consumer plays on a device opened anew iff it opens, else is stopped with the device closed |
| `Player.Player.HandleEof` | src/core/player.c:813-869 | from options and answers: a stream stops; repeat goes back to position 0 iff continue is on, else stops; without a next track nothing is loaded; else as `NextFile`; what the device holds is played out unless the next file does not open; the ring is filled first iff another file plays |
| `Player.Player.NextFile` | src/core/player.c:834-860 | the next file plays iff continue is on, the album is the same or album-continue on, and it opens and the device opens or already has its format; it is unloaded iff playback should go on and the file does not open; otherwise both sides stop with the new file kept |
| `Player.Player.ConsumerTurn` | src/core/player.c:871-990 | the consumer thread keeps the state invariant between taking and releasing its lock; which turn it is and how many bytes it moves on follow from the answers: it waits iff not playing, opens the device anew iff that has no room to tell of or a write fails, and else writes as `WriteRounds`; only the end of a file can make it drop bytes |
| `Player.Player.Do` | src/core/player.c:1132-1641 | every call ends in one of the five states with devices open exactly as the statuses say and the device paused iff the consumer is, whatever is answered |
| `Player.Player.Run` | src/core/player.c:1132-1641 | any sequence of calls and consumer turns keeps the invariant; if scale_pos <= consumer_pos held whenever a switch was used with scaling off, every byte that goes out while scaling is on was scaled exactly once |
| `Player.Player.ScaledTwice` | src/core/player.c:1438-1447 | at any moment of playback with scaling off and scale_pos > consumer_pos, switching it on scales the next byte at least twice |
| `Player.Player.Unsettle` | src/core/player.c:1438-1447 | playback with scaling off reaches such a moment: switch on, a write that does not take all it is offered, switch off |
| `Glob.ParsedMeans` | src/common/glob.c:86-147 | compiling a pattern keeps its meaning: quoting, stars, question marks and text |
| `Glob.QuotedMeans` | src/common/glob.c:86-147 | a text with a backslash before every star, question mark and backslash means that text and no other |
| `Glob.WildMeans` | src/common/glob.c:86-147 | a star means every text, a question mark the texts of one character, a backslash at the end itself |
| `Glob.NormalMeans` | src/common/glob.c:22-84 | simplifying keeps the set of matched texts |
| `Glob.NormalGuarded` | src/common/glob.c:22-84 | after it every star is followed by text or by the end |
| `Glob.RunWithStar` | src/common/glob.c:22-84 | a run of wildcards with a star takes any text of at least its number of question marks |
| `Glob.EqualAt` | src/common/uchar.c:597-629 | reading characters at a place of the UTF-8 bytes decides whether the text there equals the pattern text character by character; at a byte inside a character nothing equals |
| `Glob.Find` | src/common/uchar.c:631-663 | from any byte, also inside a character, the first place where the text stands, and none before it |
| `Glob.SkipText` | src/common/glob.c:163-175 | going on by the bytes of the pattern text goes past the text that equals it, if equal characters have equally many bytes |
| `Glob.Glob.MoveQMarks` | src/common/glob.c:52-66 | all question marks of a run stand before its stars, order of the rest kept |
| `Glob.Glob.DropStars` | src/common/glob.c:68-80 | one star is left, nothing else is lost |
| `Glob.Glob.Simplify` | src/common/glob.c:22-84 | the loops over the item list compute the normal form |
| `Glob.Glob.Compile` | src/common/glob.c:86-147 | the items match exactly the texts the pattern means, for every comparison of characters |
| `Glob.Glob.MatchStar` | src/common/glob.c:183-216 | trying every byte after a star decides the match, if equal characters have equally many bytes; the type check cannot fail |
| `Glob.Glob.DoMatch` | src/common/glob.c:163-219 | matching terminates, and if equal characters have equally many bytes it stays inside the text and accepts exactly the meaning of the items |
| `Glob.Glob.Match` | src/common/glob.c:221-224 | the whole text matches iff the items mean it, under the same condition on the characters of pattern and text |
| `Glob.SizesMatter` | src/common/glob.c:172-175 | the condition is needed: a pattern of one character that equals a character of another size is not found to match it |
| `Expr.ParsesExactly` | src/library/expr.c:220-392 | a token list parses to a tree iff it is a sentence of the grammar whose left-associative, precedence-free tree that is |
| `Expr.ParsesUnit` | src/library/expr.c:220-318 | every operand of the grammar parses, whatever may follow it |
| `Expr.OnlyUnits` | src/library/expr.c:220-318 | nothing but operands of the grammar parses |
| `Expr.OnlyChains` | src/library/expr.c:348-392 | nothing but operators and operands up to the closing parenthesis or the end is taken |
| `Expr.AndsShrink` | src/library/expr.c:847-871 | a sentence written on with `&` alone says no more than before |
| `Expr.EvalChain` | src/library/expr.c:938-952 | evaluating the tree is folding the operand values from the left |
| `Expr.Add` | src/library/expr.c:320-346 | an operand fills the open place, an operator goes on top; its BUG_ON cannot fire |
| `Expr.ParseOne` | src/library/expr.c:220-318 | one operand is taken and its tree complete, or there is none |
| `Expr.Parse` | src/library/expr.c:348-392 | the loop builds the tree of the whole chain, or there is none |
| `Expr.ParseTokens` | src/library/expr.c:745-748 | a tree comes back iff the tokens are a sentence, and it is that sentence's tree |
| `Typing.HarmlessShrinks` | src/library/expr.c:847-871 | with one more operator and operand typed behind it, a sentence that is harmless says no more of any track than before |
| `Typing.OrGains` | src/library/expr.c:849-852 | an operand behind `/` lets through what it says itself, which is why it is not harmless |
| `Typing.NumbersNarrow` | src/library/expr.c:853-860 | digits typed on to a number let no tag through that was not before iff the operator is `>` or `>=`; of the other four each has an example |
| `Typing.TextsNarrow` | src/library/expr.c:861-871 | characters put around a text let no tag through that was not before iff the operator is `=` |
| `Typing.HarmlessNumber` | src/library/expr.c:847-871 | a comparison with a number is harmless iff more digits let nothing new through, or it is `!=`, which does |
| `Typing.HarmlessText` | src/library/expr.c:847-871 | a comparison with a text is always harmless, though with `!=` a longer text lets more through |
| `Typing.HarmlessKey` | src/library/expr.c:847-871 | a comparison of two keys is never harmless, and whatever the operator another key can let through what the first did not |
| `Typing.HarmlessNot` | src/library/expr.c:847-871 | a negation is never harmless, and a longer text behind it can let more through |
| `Typing.HarmlessAnd` | src/library/expr.c:847-871 | a conjunction is harmless iff its last operand is, when that is a leaf |
| `Filters.ExpandsOnce` | src/library/expr.c:761-823 | an expression has at most one expansion |
| `Filters.BuiltinExpands` | src/library/expr.c:761-823 | an expression without filter names is its own expansion and reads no entry |
| `Filters.ExpandsMeans` | src/library/expr.c:761-823 | an expansion has built-in leaves only and evaluates as the original with names read as their definitions |
| `Filters.ReadingExists` | src/library/expr.c:761-823 | from any values of the built-in keys such a reading of the names exists |
| `Filters.ExpansionFaithful` | src/library/expr.c:761-823 | hence the expanded tree says of every track what the original means |
| `Filters.UsedTwice` | src/library/filters.c:113-126 | a filter used twice is refused although nothing is recursive |
| `Filters.Filters.GetFilter` | src/library/filters.c:113-126 | an entry is handed out at most once, and then marked |
| `Filters.Filters.CheckLeaves` | src/library/expr.c:761-823 | terminates by unvisited entries and then tree size; succeeds iff an expansion exists that reads unvisited entries, each once, and marks exactly those |
| `Filters.Filters.CheckUser` | src/library/expr.c:800-822 | a name is replaced iff its entry is unvisited, parses and expands |
| `Filters.Filters.ParseFilter` | src/library/filters.c:429-458 | success iff the text parses and expands reading no entry twice; then no filter name is left |
| `ChunkRing.FilledRotated` | src/core/buffer.c:156-197 | the number of filled flags does not depend on where one starts to count |
| `ChunkRing.FillConcat` | src/core/buffer.c:116-136 | bytes put into the chunk being written come last in the ring |
| `ChunkRing.EmptyFirst` | src/core/buffer.c:95-113 | an emptied chunk becomes the last, nothing else moves |
| `ChunkRing.TakeFirst` | src/core/buffer.c:95-113 | bytes taken come from the front |
| `ChunkRing.ChunkRing.constructor` | src/core/buffer.c:39-44 | an empty ring |
| `ChunkRing.ChunkRing.Reset` | src/core/buffer.c:138-154 | nothing produced, nothing consumed, no chunk filled |
| `ChunkRing.ChunkRing.GetRpos` | src/core/buffer.c:55-69 | there is a window iff a chunk is filled; it is the front of the bytes in the ring |
| `ChunkRing.ChunkRing.GetWpos` | src/core/buffer.c:79-93 | there is a window iff a chunk is free; it has at least 1024 bytes and is not in the chunk being read |
| `ChunkRing.ChunkRing.Write` | src/core/buffer.c:79-93 | bytes written into the window are not yet in the ring, and the consumer's chunk is untouched |
| `ChunkRing.ChunkRing.Fill` | src/core/buffer.c:116-136 | the bytes written are appended; the chunk is closed iff less than 1024 bytes are left or nothing was written into a non-empty chunk; read index and chunk being read stay |
| `ChunkRing.ChunkRing.Consume` | src/core/buffer.c:95-113 | the bytes leave the front of the ring; write index and chunk being written stay |
| `ChunkRing.ProducerStep` | src/core/buffer.c:79-136 | each step of the producer finds its window as it was handed out, moves to exactly one next state, and leaves the consumer's window and what was read from it alone |
| `ChunkRing.ConsumerStep` | src/core/buffer.c:55-113 | each step of the consumer finds its window as it was handed out, moves to exactly one next state, and leaves the producer's window and what was written into it alone |
| `ChunkRing.Interleave` | src/core/buffer.c:55-136 | any interleaving of producer and consumer steps meets every precondition, so no BUG_ON fires, and the bytes written are the bytes read followed by those in the ring |
| `ChunkRing.LimitFits` | src/core/player.c:581-595 | the limit of prebuffering is within the ring for a stream, where it is the whole ring, and otherwise iff a quarter of a second is less than one chunk more than the ring, whose size it then does not depend on |
| `ChunkRing.LimitBeyond` | src/core/player.c:581-595 | it is 6 for a ring of 3 chunks and 32-bit stereo at 192 kHz |
| `ChunkRing.Prebuffer` | src/core/player.c:596-631 | for every limit and every sequence of answers: the bytes delivered join the ring in order, as many of each answer as the window has room for; it asks for zero bytes only when the limit is larger than the ring and the ring is full, and does so then unless the input ends before |
| `ChunkRing.ChunkRing.GetFilledChunks` | src/core/buffer.c:156-197 | the count from the two indices is the number of filled flags |
| `LibView.WordsAre` | src/common/misc.c:30-62 | the words are the longest stretches without spaces |
| `LibView.WordsInOrder` | src/common/misc.c:30-62 | the words come in the order of the text, each once and none left out |
| `LibView.IsShortMeans` | src/library/expr.c:701-711 | a text is in the short form iff it has a tilde with nothing but `!`, `(` and spaces before it |
| `LibView.WordInside` | src/common/misc.c:30-62 | every word of a text lies inside a word of any text around it |
| `LibView.LongerMatchesLess` | src/core/track_info.c:185-224 | a longer text matches no more tracks, when the shorter one has a word |
| `LibView.GetWords` | src/common/misc.c:30-62 | the words in order |
| `LibView.TrackMatches` | src/core/track_info.c:185-224 | matches iff there is a word and every word is found in the tags, or in the name if no tag is set |
| `LibView.Library.IsFiltered` | src/library/lib.c:174-184 | a track is hidden iff there is a live filter that it does not pass, as an expression if the text is one, else as text, or a filter that says no of it |
| `LibView.Library.HashInsert` | src/library/lib.c:128-151 | stored iff no stored track has that file name |
| `LibView.Library.HashRemove` | src/library/lib.c:153-172 | exactly that track leaves the store; its BUG_ON cannot fire |
| `LibView.Library.Add` | src/library/lib.c:186-203 | the view still is the filtered store |
| `LibView.Library.Remove` | src/library/lib.c:667-679 | view and store lose exactly that track, or it was not shown and nothing changes |
| `LibView.Library.RemoveFiltered` | src/library/editable.c:471-484 | exactly the filtered rows go |
| `LibView.Library.AddAll` | src/library/lib.c:476-491 | the view becomes the filtered store |
| `LibView.Library.Refilter` | src/library/lib.c:534-559 | the view is right iff it was cleared or nothing to be shown was missing before |
| `LibView.Library.SetFilter` | src/library/lib.c:569-577 | the view is right and the live filter gone |
| `LibView.Library.ClearBefore` | src/library/lib.c:622-637 | clears iff a live filter is set and not: both have the same form, a new expression is harmless, and the new text contains the old one |
| `LibView.Library.SetLive` | src/library/lib.c:639-665 | a text in the short form that does not parse is refused; the view is right iff no stored track to be shown was hidden by an old live filter that the new one extends: plain text without words, or an expression that says no where a harmless new one says yes |
| `LibView.Run` | src/library/lib.c:174-665 | after any history in which every plain live text has a word and every harmless expression says no more than those of the texts inside it, the store and the filters are what the calls one after another make of them, and the view holds each unfiltered stored track exactly once and nothing else |
| `LibView.Do` | src/library/lib.c:174-665 | one call: a track joins iff the filter for additions lets it and its file name is new, only a shown one is removed, a new filter clears the live one, and a live text that is not accepted changes nothing |
| `LibView.TypedOn` | src/library/expr.c:847-871 | no track is lost when the expression of the new text is the old one with more operands behind `&` |
| `LibView.TypedOperand` | src/library/expr.c:847-871 | no track is lost when the expression of the new text is the old one with one more operator and operand of any kind: a `/` is not harmless and clears |
| `LibView.NumberParses` | src/library/expr.c:220-392 | the tokens of `(tracknumber=1)` and `(tracknumber>=1)` parse to those comparisons |
| `LibView.SpaceThenWord` | src/library/lib.c:626-665 | a space and then a word typed after it leaves a matching track hidden |
| `LibView.RangeOpened` | src/library/expr.c:847-871 | `~n1` and then a `-` typed after it leaves tracks with larger numbers hidden, although the new expression counts as harmless |
| `MergeSort.ChainJoin` | src/common/list.h:46-53 | joining two chains at their ends gives one chain, linked both ways |
| `MergeSort.RingDelete` | src/common/list.h:98-115 | deleting a node leaves one consistent ring of the others |
| `MergeSort.RingAppend` | src/common/list.h:86-89 | a node added at the tail closes the ring behind it |
| `MergeSort.TakeRight` | src/common/mergesort.c:41-47 | the right run gives way only to strictly smaller nodes, so equal nodes keep their order |
| `MergeSort.TakeLeft` | src/common/mergesort.c:48-52 | taking from the left run keeps both runs and the merged part sorted |
| `MergeSort.AppendBlock` | src/common/mergesort.c:57-58 | merged runs of twice the length follow each other |
| `MergeSort.Lists.Move` | src/common/mergesort.c:53-54 | a node leaves one ring and is the last of the other; both stay consistent |
| `MergeSort.Lists.MeasureRun` | src/common/mergesort.c:26-34 | the left run has the length asked for, or ends at the head |
| `MergeSort.Lists.MergeRuns` | src/common/mergesort.c:35-55 | two runs become one sorted run with the same nodes, equal ones in their old order |
| `MergeSort.Lists.Pass` | src/common/mergesort.c:22-59 | runs of length K become runs of length 2K; the count is one iff a single run is left; no node of another list is touched |
| `MergeSort.Lists.TakeOver` | src/common/mergesort.c:61-66 | the caller's head stands where the local one stood |
| `MergeSort.Lists.Sort` | src/common/mergesort.c:4-66 | terminates with the stable sort in one ring, linked both ways, through the caller's head; no node of another list is touched |
| `MergeSort.SpliceOther` | src/core/track.c:290-305 | hanging a head into the rebuilt ring as the rebuild does puts it in place of the other head, for every ring that is not empty |
| `MergeSort.SpliceEmpty` | src/core/track.c:290-305 | for an empty ring it leaves the list linked to the other head, which is on the stack |
| `Utf8.PrevCharPos` | src/common/uchar.c:229-272 | from any boundary of any string back to the boundary before it |
| `Utf8.PrevIs` | src/common/uchar.c:243-266 | a first byte whose announced length is its distance is the boundary before |
| `Utf8.PrevOne` | src/common/uchar.c:267-271 | otherwise it is one byte back |
| `Utf8.GetChar` | src/common/uchar.c:274-309 | the character and the step, for whole sequences and for single invalid bytes |
| `Utf8.StrLenSafe` | src/common/uchar.c:128-159 | the number of steps |
| `Utf8.IsValid` | src/common/uchar.c:86-118 | accepts exactly the concatenations of shortest forms of 1 to 0x10ffff, surrogates included |
| `Utf8.ValidIffEncoded` | src/common/uchar.c:86-118 | validity is being an encoding |
| `Utf8.ReadsBack` | src/common/uchar.c:274-309 | reading what was written gives the code point and passes all of it |
| `Utf8.WritesBack` | src/common/uchar.c:274-347 | what was read, written again, is the bytes it was read from, for single bytes and shortest forms |
| `Utf8.LenMeans` | src/common/uchar.c:11-62 | the table of lengths: 1, 3 and 4 exactly for the first bytes of such forms, 0 exactly for the later bytes, -1 only for bytes of none |
| `Utf8.EncodeDecoded` | src/common/uchar.c:274-347 | encoding what was decoded gives the string back |
| `Utf8.DecodeEncoded` | src/common/uchar.c:274-347 | decoding what was encoded gives the code points back, one step each |
| `Utf8.SetCharRaw` | src/common/uchar.c:311-347 | exactly the bytes of the shortest form are written, or the one byte of an invalid character |
| `Counts.JoinCount` | src/common/uchar.c:128-159 | two strings of any bytes put together have as many characters as both, less the continuation bytes of the character that comes to lie across the join, if any |
| `Counts.InsertCount` | src/common/uchar.c:128-159 | bytes that are one character, put into any string at a boundary, raise the count by one iff they are a character of their own there: they neither complete one before them nor take in bytes behind them |
| `Counts.InsertValid` | src/common/uchar.c:274-309 | a valid character always is one of its own |
| `Counts.RemoveCount` | src/common/uchar.c:128-159 | taking bytes of one character out of any string lowers the count by one iff as many bytes of it are left as the character now across that place takes in |
| `Counts.StepsContinued` | src/common/uchar.c:128-159 | continuation bytes that no character takes in count one each |
| `CmdLine.BackAt` | src/common/uchar.c:229-272 | stepping back from a character position reaches the one before |
| `CmdLine.NextWord` | src/app/cmdline.c:140-167 | over delimiters and then to the end of the word and no further, the end of the line if there is none, counted in characters |
| `CmdLine.PrevWord` | src/app/cmdline.c:140-167 | back over delimiters and then to the start of the word and no further, the start of the line if there is none |
| `CmdLine.WordRightMeans` | src/app/cmdline.c:140-167 | between the old position and the new one lie delimiters and then characters that are none; there the line ends or a delimiter stands, and a word was passed unless it ends |
| `CmdLine.WordLeftMeans` | src/app/cmdline.c:140-167 | the mirror image, to the left |
| `CmdLine.CmdLine.InsertCh` | src/app/cmdline.c:21-36 | any character stands at the cursor, which moves behind it, a NUL ends the line; on any line, valid or not, the counts stay right iff the bytes inserted are a character of their own there, as those of a valid one are |
| `CmdLine.HalvesJoin` | src/app/cmdline.c:21-36 | an input for which they go wrong: two bytes inserted as invalid characters become one character |
| `CmdLine.BeyondLast` | src/app/cmdline.c:63-77 | another: a code point beyond the last is read with four bytes and removed with one |
| `CmdLine.CmdLine.Backspace` | src/app/cmdline.c:38-55 | the character before the cursor goes; on any line the counts stay right iff what is before it and behind it does not join |
| `CmdLine.CmdLine.BackspaceToBol` | src/app/cmdline.c:57-61 | all before the cursor goes |
| `CmdLine.CmdLine.DeleteCh` | src/app/cmdline.c:63-77 | as many bytes at the cursor go as the code point read there has in shortest form, on valid text the character; on any line the counts stay right iff as many bytes of it are left as what is before it takes in |
| `CmdLine.CmdLine.SetText` | src/app/cmdline.c:79-93 | the line is any text given, cursor at its end; the counts are right for any text, and lengths and positions are those of code points iff it is valid |
| `CmdLine.CmdLine.ClearEnd` | src/app/cmdline.c:104-110 | all behind the cursor goes; on any line the counts stay right |
| `CmdLine.CmdLine.MoveLeft` | src/app/cmdline.c:112-118 | one character left, in bytes and characters, on any line |
| `CmdLine.CmdLine.MoveRight` | src/app/cmdline.c:120-126 | one character right, in bytes and characters, on any line |
| `CmdLine.CmdLine.MoveEnd` | src/app/cmdline.c:134-138 | cursor at the end, in bytes and characters, on any line |
| `CmdLine.CmdLine.ForwardWord` | src/app/cmdline.c:169-173 | cursor at the end of the next word |
| `CmdLine.CmdLine.BackwardWord` | src/app/cmdline.c:175-179 | cursor at the start of the word before |
| `CmdLine.CmdLine.DeleteWord` | src/app/cmdline.c:181-191 | the text up to the end of the next word goes |
| `CmdLine.CmdLine.BackwardDeleteWord` | src/app/cmdline.c:193-205 | the text from the start of the word before goes |
| `PathStrip.NormalizedTwice` | src/common/path.c:40-104 | normalising twice is normalising once |
| `PathStrip.ComponentLaws` | src/common/path.c:40-104 | wherever they stand, an empty component or `.` can be left out, a name followed by `..` too, and `..` at the root; a name at the end is appended |
| `PathStrip.RenderComponents` | src/common/path.c:40-104 | a rendered directory has exactly its components |
| `PathStrip.Shift` | src/common/path.c:51-53 | the bytes from there on move down, NUL included |
| `PathStrip.ParentStart` | src/common/path.c:72-78 | the start of the last component, never before the root |
| `PathStrip.StripUp` | src/common/path.c:66-84 | `..` takes back the last component, at the root nothing |
| `PathStrip.StripStep` | src/common/path.c:47-100 | one round keeps the normalised part and what the rest leads to, and shortens the rest |
| `PathStrip.PathStrip` | src/common/path.c:40-104 | terminates in place for every path, never longer, with the path of the components, empty and `.` dropped and `..` resolved; without a slash in front the first character stands for the root |
| `PathStrip.StripAbsolute` | src/common/path.c:40-104 | for a path with a slash in front that is the normal form |
| `PathStrip.RelativeRight` | src/common/path.c:40-104 | without one it is what the components say iff `..` never takes back the first of them |
| `PathStrip.FirstTakenBack` | src/common/path.c:66-84 | an input for which it is not: `a/../b` becomes `ab` |
| `PathStrip.AbsoluteCwd` | src/common/path.c:106-126 | for any path and directory the stripped path, taken from the directory if it is relative; the normal form if the directory has a slash in front |
| `Worker.RunGoesOn` | src/common/worker.c:43-166 | every initial state starts a run, and a run goes on by every step of worker and controller and by nothing else |
| `Worker.StartedInOrder` | src/common/worker.c:43-85 | jobs start in the order of submission, hence each at most once |
| `Worker.FreedOnce` | src/common/worker.c:70-73 | no job is lost, none is freed twice or while it is queued or current |
| `Worker.FreedForAReason` | src/common/worker.c:43-85 | no job is freed that was neither started nor matched by a removal while it was queued |
| `Worker.StatusLasts` | src/common/worker.c:94-166 | a status stays as set until the next call that sets one |
| `Worker.NoneStarts` | src/common/worker.c:43-85 | after a status other than active is set no job starts until the next call that sets one |
| `Worker.RemovedAll` | src/common/worker.c:138-166 | when the removal returns every matching job submitted before is freed, neither queued nor running |
| `Worker.WaitEnds` | src/common/worker.c:75-79 | each worker step wakes a controller that waits for a cancelled job or lowers a rank of at most four |
| `Worker.WaitIsShort` | src/common/worker.c:75-79 | so in any run a wait lasts less than four steps |
| `Worker.NoLostJob` | src/common/worker.c:51-60 | the worker never sleeps on a runnable job |
| `Worker.NoDeadlock` | src/common/worker.c:43-166 | while the controller is inside a call some thread can go on |
| `Worker.WorkerInv` | src/common/worker.c:43-85 | every step of the worker keeps the invariant |
| `Worker.ControllerInv` | src/common/worker.c:94-166 | every step of the controller keeps the invariant |
| `Cache.EntryReads` | src/library/cache.c:106-159 | an entry read by itself gives the track back with every field, except that an empty codec or profile reads as none |
| `Cache.StoredSame` | src/library/cache.c:144-146 | what a track is read back as has all its fields, an empty codec or profile as none; it is the track iff neither is empty |
| `Cache.NumbersBack` | src/library/cache.c:41-56 | each field stands at its offset, the reserved bytes are 0xff, and the numbers read back with their sign |
| `Cache.Padding` | src/library/cache.c:355-367 | the bytes up to the next aligned offset are zero |
| `Cache.EntryShift` | src/library/cache.c:106-159 | an entry reads the same wherever it stands |
| `Cache.SplitJoined` | src/library/cache.c:121-157 | strings written with their NULs come back one by one |
| `Cache.BodyLaid` | src/library/cache.c:355-367 | padding before an entry and aligning after it reach the same offsets |
| `Cache.RoundTrip` | src/library/cache.c:201-249 | reading a written file accepts every entry and gives every track back in the order written with every field, except that an empty codec or profile reads as none; tracks without those come back exactly |
| `Cache.Writer.WriteTi` | src/library/cache.c:313-371 | exactly padding and entry are appended, flushed or not, and the offset follows |
| `Cache.Measure` | src/library/cache.c:337-353 | the size is that of the entry |
| `Cache.CheckEntry` | src/library/cache.c:81-104 | valid iff the sizes fit, the NULs are odd in number and the last byte is one |
| `Cache.EntryInside` | src/library/cache.c:81-157 | reading an entry that passed the check stays inside its block iff the block has not exactly one NUL |
| `Cache.OneString` | src/library/cache.c:81-157 | an entry with one NUL that passes the check, at which reading runs over |
| `Cache.ReadEntry` | src/library/cache.c:106-159 | the track of the entry's strings and numbers, iff reading them stays inside the block |
| `Cache.SortByName` | src/library/cache.c:293-303 | the same tracks in order of their file names, bytes compared as by strcmp |
| `Cache.StrCmpMeans` | src/library/cache.c:276-282 | zero iff equal; negative iff at the first place where they differ the first name ends or has the smaller byte |
| `Cache.Cache.AddTi` | src/library/cache.c:71-79 | the track joins the others, none is lost |
| `Cache.Cache.Lookup` | src/library/cache.c:161-171 | a track of that name, and none iff the table has none |
| `Cache.Cache.RemoveTi` | src/library/cache.c:173-199 | that track leaves the table once, all others stay; one that is not there changes nothing |
| `Cache.Cache.GetTrackInfos` | src/library/cache.c:284-303 | all tracks of the table in filename order |
| `Cache.Cache.Close` | src/library/cache.c:373-403 | the file is that of all tracks in filename order |
| `Cache.Cache.Read` | src/library/cache.c:201-249 | the tracks of the entries up to the first invalid one, or the first that is read over its end, join the table |
| `Cache.Restart` | src/library/cache.c:201-403 | closing and starting again keeps every track with every field, except that an empty codec or profile becomes none; the table is exactly the old one when there are none |

## Left out

- Sockets, HTTP, D-Bus, process spawning, directory scanning, plugins and curses: I/O and foreign calls.
- Collation, iconv, character widths and Unicode decomposition: comparison and folding are parameters.
- The expansion of short-form filters (`expand_short_expr`): what a parser makes of them is a parameter of the library view, and `RangeOpened` takes the tokens they are expanded to for granted.
- The tokenizer of filter expressions and the values of leaves on a track: the parser works on tokens, and a leaf holds of a track as a valuation says.
- Album and artist shuffle, option registries, tab completion, base64 and escaping are not modelled.
- Parent pointers of expression nodes: trees are values, so sharing and update in place are not captured.
- RbTree.Arena.Erase: allocation and the packing of colour and parent into one word are not modelled.
- TrackList.SortedList.Rebuild: what an empty list becomes is said on the links (`MergeSort.SpliceEmpty`); here they are a sequence. Its only caller returns before that (src/library/editable.c:228-232). What removing a track with a lost mark does to memory is not modelled: `SortedList.Remove` demands the mark.
- Shuffle.ShuffleTree.Add: the random numbers are arguments; that a fresh one is drawn at last is assumed of them.
- FifoMutex.NoDeadlock: memory orders weaker than one step after another are not modelled, nor is how often a thread polls before it can step.
- Player.Player.Seek: positions in seconds are real numbers, so rounding is not modelled, nor is wrap-around of byte positions.
- Player.Player.Pause: control calls are atomic under both locks; the unlocked look at the input, which can be deleted when the consumer is stopped and then decides nothing, and shutdown are not modelled.
- Player.Player.WriteRounds: the rounds of the inner loop are a list of any length, so that a device that accepts nothing for ever is not modelled as a loop without end.
- Glob.Glob.DoMatch: what the code reads beyond the end of a text is not modelled, the answer is then `None`; texts are valid UTF-8 without surrogates, and the pattern is compiled as characters.
- Filters.Filters.ParseFilter: `filters_activate`, which joins several selected filters first, is not modelled.
- ChunkRing.ChunkRing.Fill: memory orders in the windows and timed waits for data or room are not modelled.
- LibView.Library.ViewAdd: a row is added at the end; where it belongs is the sorted list's business.
- CmdLine.CmdLine.InsertCh: the allocated size of the line is not modelled, nor what stands behind a NUL.
- CmdLine.CmdLine.BackspaceToBol: this and the word motions and deletions are stated for valid UTF-8.
- Worker.NoDeadlock: there is one controlling thread, and a running job ends.
- Cache.RoundTrip: byte order is little-endian, no path variables are configured, and each entry is below 4 GiB; wrap-around of file offsets is not modelled.
