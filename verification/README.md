# RockSchedule: containers, timetable index and the protocols beside them

RockSchedule keeps a timetable index on hand-written containers, and ships with a token refresh
protocol, a multipart encoder, a request/task map and the push-down parser of SQLite. Each has a small
driver and a large invariant; this project states the invariants and proves them.

- **Timetable** (`Timetable.dfy`, `TermPage.dfy`, `CourseRows.dfy`, `FinalTimetable.dfy`). Inserting a course puts a node
  into one priority-sorted list per slot (section, day, location) and lists each visible head in a second
  dictionary. The second dictionary is proved to be the exact inverse of the heads after any run, each
  list to be a plain insertion fold, and the cached, rendered timetable to be a partition of the occupied
  slots into maximal ranges.
- **Linked list** (`LinkedList.dfy`). Insertion, setting and the two copying forms on the heap.
- **LRU cache** (`LRUSpec.dfy`, `LRUCache.dfy`). The dictionary and the intrusive list against a plain
  list of entries; every method is the sequence of its critical sections, and runs interleave the
  sections of all threads.
- **Ordered set** (`OrderedSetSpec.dfy`, `OrderedSet.dfy`, `OrderedSetSharing.dfy`). The index
  dictionary and the pointer array as mutual inverses, and copy-on-write: programs over sets that share
  storage compute what they compute on plain sequences.
- **LR parser** (`LemonGrammar.dfy`, `LemonTables.dfy`, `LemonParser.dfy`, `LemonExample.dfy`). The
  Lemon engine over any tables that meet a certificate: what each state code knows about the symbols
  and codes below it on the stack. What it accepts is a sentence, with the value its parse tree folds to.
- **Token refresh** (`Authentication.dfy`, `AuthenticationAnswers.dfy`). Locked steps, the serial queue's blocks, refreshes in flight,
  and threads between a lock and what follows it, in every interleaving.
- **Multipart encoding** (`MultipartFormat.dfy`, `Multipart.dfy`). The encoder with its flags and
  streams, and a decoder that follows section 5.1.1 of RFC 2046.
- **Request/task map** (`RequestTaskMap.dfy`). Three maps and a two-event lifecycle.

`Collections.dfy` holds what several components share.

Specification functions say what an operation does to plain values; methods on classes are proved
against them; lemmas say what holds over all runs.

## What the code does not do

Where a promise fails, the code is modelled as it is, the exact condition is proved for all inputs, and a
concrete use or run shows that the failure can be reached.

- `OrderedSet.append` is documented to append to the end, but a member keeps its place
  (`AppendedComesLast`, `AppendMember`).
- `LinkedList.insert` on an empty list leaves the head nil, so the node is unreachable from it, and it takes
  stale and foreign indices without asking, after which elements can be out of reach (`LinkedList.Insert`,
  `InsertIntoEmpty`, `InsertTwice`, `InsertAtForeignEnd`).
- `LRUCache.removeAllValues` does not reset `totalCost` (`TotalCostIsSum`, `KeptInEmptyCache`,
  `ForgottenCostEvicts`).
- A request is adapted after the lock is released, so it can be adapted with a credential that has been
  replaced since, or during a refresh (`AppliedCredentialIsCurrent`,
  `RequestMayBeAdaptedWithReplacedCredential`).
- A retry reads the credential under one lock and starts a refresh under another, so it can refresh a
  credential that has been replaced (`RetryRefreshesReplacedCredential`,
  `RetryMayRefreshReplacedCredential`).
- `MultipartFormData.encode` never clears a final boundary flag, so parts appended after an `encode()`
  are lost to a decoder (`UsesRoundTrip`, `UsesDecode`, `AppendAfterEncode`).
- `RequestTaskMap` is documented as one to one, but associating an end that belongs to another pair
  leaves that pair half in place, and can make the count fatal (`StaysOneToOne`, `CountStays`,
  `CountAfterSecondTask`).

## Modelling choices

- `sno` is fixed for the life of a timetable, because `kind` is not part of node equality; a node's kind
  is then a function of its key.
- Clocks, the authenticator's answers and whether a credential requires a refresh are inputs of the
  steps; the authenticator completes each refresh once and the clock does not run backwards.
- Adapting and retrying are several steps: the critical sections, and what the thread does between and after
  them with what it holds. The serial queue waits for the operation it serves.
- `isKnownUniquelyReferenced` is answered by a set of owners (ordered set) or a parameter (linked list).
- A stream is the list of what its reads will deliver; once closed it delivers nothing more.
- `fatalError` is an outcome where the property is that it is not reached (request/task map), and a
  precondition where the source documents it as the caller's duty (ordered set, linked list).
- The parser's tables, rules and semantic actions are parameters. The certificate asks for what a
  generator of tables ensures: state codes tell the truth about the stack, rules match the tables,
  fallbacks have no fallback, left-out unit rules have no action, and no symbol derives itself (the last
  one makes the loop's termination provable for every input).
- Texts are their UTF-8 bytes.

## Model

| member | source | states |
|---|---|---|
| Timetable.InsertedIsSorted | RockSchedule/Classes/DataSource/Map.swift:40-50 | Inserting before the first node it ties with or beats keeps a slot list sorted by kind ascending and lesson count descending |
| Timetable.InsertedAdds | RockSchedule/Classes/DataSource/Map.swift:40-50 | An insertion adds exactly the new node to the slot list |
| Timetable.InsertKeepsSafe | RockSchedule/Classes/DataSource/Map.swift:35-61 | Every slot keeps a head whose week array reaches the slot's week, so the unchecked array access never fails |
| Timetable.ListedAfter | RockSchedule/Classes/DataSource/Map.swift:37-39 | An insertion takes its slot from the old head, gives it to the new head, and changes no other entry of `nodeMap` |
| Timetable.InsertKeepsInverse | RockSchedule/Classes/DataSource/Map.swift:35-61 | One insertion keeps `nodeMap` the exact inverse of the slot heads, also for a node that is already in the slot |
| Timetable.AlwaysInverse | RockSchedule/Classes/DataSource/Map.swift:27-61 | After any insertions made through `insert(course:)`, location l is in `nodeMap[n][s]` if and only if slot (s, n.inDay, l) exists and n is its head |
| Timetable.SlotIsFold | RockSchedule/Classes/DataSource/Map.swift:35-61 | Each slot list depends only on the insertions at that slot and equals the plain insertion fold of them; a slot exists exactly if something was inserted there |
| Timetable.SlotIsSorted | RockSchedule/Classes/DataSource/Map.swift:40-50 | A slot list is sorted and holds exactly the inserted nodes |
| Timetable.HeadIsLatestBest | RockSchedule/Classes/DataSource/Map.swift:40-50 | The visible head is the latest-inserted node of best rank |
| Timetable.SortedIsUnique | RockSchedule/Classes/DataSource/Map.swift:40-50 | A multiset of ranks has only one sorted order |
| Timetable.OrderDoesNotMatter | RockSchedule/Classes/DataSource/Map.swift:35-61 | Permuting the whole insertion sequence leaves each slot's rank sequence unchanged, and the list itself where ranks differ |
| TermPage.LocatesFitDay | RockSchedule/Classes/DataSource/Map.swift:105-123 | A course is entered only on its own day |
| TermPage.HistoryFits | RockSchedule/Classes/DataSource/Map.swift:27-33 | All insertions made by `insert(course:)` name the node's own day |
| TermPage.RowsDominate | RockSchedule/Classes/DataSource/Map.swift:105-123 | A course is entered on the whole-term page at least as often as in any week at the same place |
| TermPage.HistoryDominates | RockSchedule/Classes/DataSource/Map.swift:27-33 | Over any courses every node is inserted on the whole-term page at least as often as in any week at that place |
| TermPage.TermPageDominates | RockSchedule/Classes/DataSource/Map.swift:27-50 | A slot occupied in some week is occupied at section 0, whose head ranks at least as high |
| CourseRows.RowsAscend | RockSchedule/Classes/DataSource/Map.swift:107-113 | Rows of lessons ascend with their periods |
| CourseRows.SpecialsLieBetween | RockSchedule/Classes/DataSource/Map.swift:107-121 | No lesson is on the row of a special time; noon lies between the fourth and fifth lesson, night between the eighth and ninth |
| CourseRows.OtherRowsAreLessons | RockSchedule/Classes/DataSource/Map.swift:107-113 | Every row that is not that of a special time is the row of exactly one period |
| CourseRows.RowsAre | RockSchedule/Classes/DataSource/Map.swift:105-123 | The lessons and special times of a course have one row each and never share one; their number is `periodCount` |
| CourseRows.CallLocatesAre | RockSchedule/Classes/DataSource/Map.swift:105-123 | A course is entered exactly on its day, in its weeks and on the whole-term page, at the rows of its lessons and special times |
| CourseRows.SlotHolds | RockSchedule/Classes/DataSource/Map.swift:27-61 | After any courses a slot holds exactly the courses that take place there |
| CourseRows.OccupiedIsCovered | RockSchedule/Classes/DataSource/Map.swift:27-61 | A slot is occupied if and only if some course takes place there |
| CourseRows.KindTells | RockSchedule/Classes/DataSource/Map.swift:63-74 | A key is the own one, the own custom one, or somebody else's, as its number and type say |
| CourseRows.RankIsOrder | RockSchedule/Classes/DataSource/Map.swift:40-48 | One node goes before another if it is the user's own, then if it is the user's custom one, then if it has at least as many lessons and special times |
| CourseRows.SlotIsInOrder | RockSchedule/Classes/DataSource/Map.swift:40-50 | Every slot list is in that order |
| CourseRows.HeadIsFirst | RockSchedule/Classes/DataSource/Map.swift:40-50 | The head of a slot is a course that takes place there and that none of the others comes before |
| FinalTimetable.ShownIsTaken | RockSchedule/Classes/DataSource/FinalMap.swift:38-63 | What is shown covers exactly the slots at which some course takes place |
| FinalTimetable.ShownIsFirst | RockSchedule/Classes/DataSource/FinalMap.swift:38-63 | Each shown slot shows a course that takes place there and that none of the others comes before |
| FinalTimetable.RangeView | RockSchedule/Classes/DataSource/FinalMap.swift:49-49 | The runs found are exactly the maximal stretches of the index set, in ascending order with gaps between them |
| FinalTimetable.RunAround | RockSchedule/Classes/DataSource/FinalMap.swift:49-49 | Every member of an index set lies in one of its maximal runs |
| FinalTimetable.VisibleIsPartition | RockSchedule/Classes/DataSource/FinalMap.swift:38-63 | Every occupied slot is covered by exactly one item, that of its visible head, and no other slot is covered |
| FinalTimetable.RangesAreMaximal | RockSchedule/Classes/DataSource/FinalMap.swift:47-53 | The ranges one node shows in one section are apart by at least one free location |
| FinalTimetable.RebuildIsDetermined | RockSchedule/Classes/DataSource/FinalMap.swift:38-63 | Two rebuilds of one index have the same sections and the same items in each, whatever order the dictionary is visited in |
| FinalTimetable.AppendRuns | RockSchedule/Classes/DataSource/FinalMap.swift:49-52 | The innermost loop adds the runs of a node in one section, each once |
| FinalTimetable.AppendNode | RockSchedule/Classes/DataSource/FinalMap.swift:47-54 | One node adds its runs to each of its sections and nothing to any other |
| FinalTimetable.AddingKeepsRuns | RockSchedule/Classes/DataSource/FinalMap.swift:44-55 | Visiting one more node keeps the items equal to the runs of the nodes visited |
| FinalTimetable.FinalMap.constructor | RockSchedule/Classes/DataSource/FinalMap.swift:67-77 | A new timetable is empty and its cache is consistent |
| FinalTimetable.FinalMap.FirstIndex | RockSchedule/Classes/DataSource/Map.swift:40-48 | The index found is the first whose node the new one ties with or beats, else the end |
| FinalTimetable.FinalMap.InsertInMap | RockSchedule/Classes/DataSource/Map.swift:35-61 | The two dictionaries become what the specification of one insertion says |
| FinalTimetable.FinalMap.InsertNode | RockSchedule/Classes/DataSource/FinalMap.swift:98-101 | Every insertion clears the cache flag, is recorded once, and leaves the dictionaries what all insertions so far make of them |
| FinalTimetable.FinalMap.Locates | RockSchedule/Classes/DataSource/Map.swift:105-123 | The locations computed are the rows of the lessons and special times, each in every week of the course and in section 0 |
| FinalTimetable.FinalMap.InsertCourse | RockSchedule/Classes/DataSource/Map.swift:27-33 | A course is inserted as one node at all its locations, which keeps every insertion on its node's day |
| FinalTimetable.FinalMap.InsertItem | RockSchedule/Classes/DataSource/FinalMap.swift:79-91 | The courses of an item are inserted in order under its key |
| FinalTimetable.FinalMap.AddNode | RockSchedule/Classes/DataSource/FinalMap.swift:44-55 | One round of the rebuild makes room for a node's sections and adds its items |
| FinalTimetable.FinalMap.Final | RockSchedule/Classes/DataSource/FinalMap.swift:38-63 | Whether cached or rebuilt, the result is what a fresh rebuild would give |
| FinalTimetable.FinalMap.ShownIsPartition | RockSchedule/Classes/DataSource/FinalMap.swift:38-63 | If all insertions name the node's own day, as those of courses do, the cached timetable is a partition of the occupied slots |
| FinalTimetable.Show | RockSchedule/Classes/DataSource/FinalMap.swift:38-96 | From an empty timetable, after any insertions of items of courses with looks in between, what is shown is a partition of the slots these courses occupy |
| LinkedListModel.ChainOf | RockSchedule/Classes/LinkedList/LinkedList.swift:77-98 | The chain built is fresh, well formed and spells the sequence |
| LinkedListModel.LinkedIn | RockSchedule/Classes/LinkedList/LinkedList.swift:432-451 | Turning the neighbours' links to a new node gives a well-formed chain that spells sequence insertion |
| LinkedListModel.LinkedList.Of | RockSchedule/Classes/LinkedList/LinkedList.swift:65-71 | A list made of a sequence has exactly its elements |
| LinkedListModel.LinkedList.IndexAfter | RockSchedule/Classes/LinkedList/LinkedList.swift:238-242 | The index after position k is that of position k + 1 |
| LinkedListModel.LinkedList.IndexBefore | RockSchedule/Classes/LinkedList/LinkedList.swift:373-380 | The index before position k is that of position k - 1 |
| LinkedListModel.LinkedList.Insert | RockSchedule/Classes/LinkedList/LinkedList.swift:432-452 | With an index of a non-empty list: sequence insertion by one fresh node. For any index at all, stale or of another list: where the node is linked, that the list stays consistent exactly if its own node is meant and offset and position agree on being first, and what iteration from the head then shows; on the empty list the head stays nil |
| LinkedListModel.LinkedList.InsertBefore | RockSchedule/Classes/LinkedList/LinkedList.swift:439-451 | The branch for the index of a node inserts before that node, in whichever chain and wherever it stands there; with offset zero the new node becomes the head |
| LinkedListModel.LinkedList.InsertUnlinked | RockSchedule/Classes/LinkedList/LinkedList.swift:439-451 | The branch for an index whose node is gone links nothing; with offset zero the new node alone becomes the list |
| LinkedListModel.LinkedList.ShownAfter | RockSchedule/Classes/LinkedList/LinkedList.swift:443-450 | What the head reaches after an insertion before a node: the new element and what followed that node, the old elements, or the inserted sequence |
| LinkedListModel.InsertIntoEmpty | RockSchedule/Classes/LinkedList/LinkedList.swift:433-438 | A concrete use: what is inserted into an empty list cannot be reached from its head |
| LinkedListModel.InsertTwice | RockSchedule/Classes/LinkedList/LinkedList.swift:439-451 | A use of one start index twice, on any non-empty list: the element inserted first drops out of reach from the head |
| LinkedListModel.InsertAtForeignEnd | RockSchedule/Classes/LinkedList/LinkedList.swift:439-451 | A use of the end index of another, empty list: the element there drops out of reach |
| LinkedListModel.LinkedList.CopyNodesSetting | RockSchedule/Classes/LinkedList/LinkedList.swift:104-121 | The list moves to an all-fresh chain that equals the updated sequence |
| LinkedListModel.LinkedList.CopyNodesRemoving | RockSchedule/Classes/LinkedList/LinkedList.swift:124-169 | The list moves to an all-fresh chain without the range and returns the index of the seam |
| LinkedListModel.LinkedList.CopyKept | RockSchedule/Classes/LinkedList/LinkedList.swift:129-168 | The copy loop yields the elements outside the range and the seam's node |
| LinkedListModel.LinkedList.KeptElements | RockSchedule/Classes/LinkedList/LinkedList.swift:145-161 | The element at position k lands where the elements outside the range put it |
| LinkedListModel.LinkedList.Set | RockSchedule/Classes/LinkedList/LinkedList.swift:287-297 | Setting updates the sequence; a shared chain is replaced by a fresh copy and its nodes are unchanged |
| LRUSpec.CleanCountIsShortest | RockSchedule/Classes/LRUCache/LRUCache.swift:215-225 | Eviction removes the shortest oldest prefix that meets both limits, or everything |
| LRUSpec.EvictedTwice | RockSchedule/Classes/LRUCache/LRUCache.swift:218-224 | Evicting m and then n oldest entries is evicting m + n |
| LRUSpec.RunKeepsKeys | RockSchedule/Classes/LRUCache/LRUCache.swift:115-172 | In every run no key occurs twice |
| LRUSpec.WithoutKeyIsCut | RockSchedule/Classes/LRUCache/LRUCache.swift:191-201 | Dropping a key cuts exactly its entry and its cost |
| LRUSpec.AccessedComesLast | RockSchedule/Classes/LRUCache/LRUCache.swift:115-163 | The entry just set or fetched becomes the newest and the rest stay in order of access |
| LRUSpec.AlwaysInOrderOfAccess | RockSchedule/Classes/LRUCache/LRUCache.swift:115-225 | In every run the list is in order of the last `setValue` or `value` access, oldest first |
| LRUSpec.TotalCostIsSum | RockSchedule/Classes/LRUCache/LRUCache.swift:115-172 | `totalCost` is the sum of the live costs plus the costs that `removeAllValues` did not subtract; without it the sum is exact |
| LRUSpec.ForgottenCostEvicts | RockSchedule/Classes/LRUCache/LRUCache.swift:166-172 | A run in which the cost left by `removeAllValues` evicts a value that fits in the empty cache |
| LRUSpec.StepFinds | RockSchedule/Classes/LRUCache/LRUCache.swift:115-225 | Setting a key stores its value and cost; removing, clearing and evicting lose them; no section changes what is found for any other key |
| LRUSpec.FoundIsLastSet | RockSchedule/Classes/LRUCache/LRUCache.swift:115-225 | In every run a key is found with the value and cost set last, unless it was removed, cleared or evicted since; otherwise it is not found |
| LRUSpec.KeptInEmptyCache | RockSchedule/Classes/LRUCache/LRUCache.swift:115-225 | A value set in a cache without entries survives its clean if and only if its cost and the cost still counted fit the limit, and one value does |
| LRUSpec.SizeIsBounded | RockSchedule/Classes/LRUCache/LRUCache.swift:115-138 | In every interleaving of critical sections the count exceeds its limit by at most the number of insertions not yet cleaned up after |
| LRUSpec.StepCost | RockSchedule/Classes/LRUCache/LRUCache.swift:115-225 | A critical section adds at most the cost it sets, and a clean leaves at most its limit |
| LRUSpec.CostIsBounded | RockSchedule/Classes/LRUCache/LRUCache.swift:115-225 | If no cost is negative, in every run the live costs exceed their limit by at most what has been set since the last clean |
| LRUSpec.CostIsWithinLimit | RockSchedule/Classes/LRUCache/LRUCache.swift:115-225 | In every interleaving the live costs are within the limit whenever no insertion waits for its clean |
| LRUCacheModel.LinkedOut | RockSchedule/Classes/LRUCache/LRUCache.swift:191-201 | Bridging over one container leaves a well-formed chain without it |
| LRUCacheModel.KeyedSize | RockSchedule/Classes/LRUCache/LRUCache.swift:92-94 | The dictionary and the list have the same size |
| LRUCacheModel.KeyedMoved | RockSchedule/Classes/LRUCache/LRUCache.swift:121-126 | Moving a container to the end keeps dictionary and list in agreement |
| LRUCacheModel.KeyedLess | RockSchedule/Classes/LRUCache/LRUCache.swift:142-151 | Removing a container from both keeps them in agreement |
| LRUCacheModel.LRUCache.Unlink | RockSchedule/Classes/LRUCache/LRUCache.swift:191-201 | Exactly the container at its position leaves the list; both link directions and both ends stay consistent |
| LRUCacheModel.LRUCache.Link | RockSchedule/Classes/LRUCache/LRUCache.swift:204-212 | The container becomes the last of the list |
| LRUCacheModel.LRUCache.Position | RockSchedule/Classes/LRUCache/LRUCache.swift:121-154 | The dictionary finds a key exactly where the list has its entry |
| LRUCacheModel.LRUCache.SetLocked | RockSchedule/Classes/LRUCache/LRUCache.swift:120-137 | The locked part of `setValue` replaces or adds the entry as the newest and accounts for its cost |
| LRUCacheModel.LRUCache.Fetch | RockSchedule/Classes/LRUCache/LRUCache.swift:154-163 | Fetching returns the key's value and makes it the newest |
| LRUCacheModel.LRUCache.RemoveValue | RockSchedule/Classes/LRUCache/LRUCache.swift:142-151 | Removing returns the key's value and drops its entry and cost |
| LRUCacheModel.LRUCache.RemoveAllValues | RockSchedule/Classes/LRUCache/LRUCache.swift:166-172 | Clearing empties dictionary and list and leaves `totalCost` |
| LRUCacheModel.LRUCache.AllValues | RockSchedule/Classes/LRUCache/LRUCache.swift:102-112 | The values from oldest to newest |
| LRUCacheModel.LRUCache.Clean | RockSchedule/Classes/LRUCache/LRUCache.swift:215-225 | The evicted entries are the shortest oldest prefix that meets both limits, or all |
| LRUCacheModel.LRUCache.SetValue | RockSchedule/Classes/LRUCache/LRUCache.swift:115-139 | Without interference a call stores, then evicts; nil removes |
| OrderedSetSpec.AppendedComesLast | RockSchedule/Classes/OrderedSet/OrderedSet.swift:102-121 | What is appended comes last if and only if it is new or was last already |
| OrderedSetSpec.AppendedKeeps | RockSchedule/Classes/OrderedSet/OrderedSet.swift:106-121 | Appending loses nothing and adds only a new object |
| OrderedSetSpec.InsertedThere | RockSchedule/Classes/OrderedSet/OrderedSet.swift:356-371 | A new object stands at its index, between what was before and behind it; a member changes nothing |
| OrderedSetSpec.InsertedAllThere | RockSchedule/Classes/OrderedSet/OrderedSet.swift:381-406 | Objects inserted together stand between what was before and behind the index |
| OrderedSetSpec.MovedThere | RockSchedule/Classes/OrderedSet/OrderedSet.swift:298-331 | A moved member stands at its index and the others keep their order |
| OrderedSetSpec.SwappedThere | RockSchedule/Classes/OrderedSet/OrderedSet.swift:244-257 | Two members change places and nothing else moves |
| OrderedSetSpec.FilteredAre | RockSchedule/Classes/OrderedSet/OrderedSet.swift:208-219 | Filtering keeps exactly the members that satisfy the predicate |
| OrderedSetSpec.MirrorsCut | RockSchedule/Classes/OrderedSet/OrderedSet.swift:143-163 | Taking out an object and lowering all later indices keeps dictionary and array mutual inverses |
| OrderedSetSpec.MirrorsSwap | RockSchedule/Classes/OrderedSet/OrderedSet.swift:244-257 | Exchanging two indices and two objects keeps them mutual inverses |
| OrderedSetSpec.MirrorsToInsert | RockSchedule/Classes/OrderedSet/OrderedSet.swift:392-399 | Inserting a new object keeps the indices right up to it |
| OrderedSetSpec.SameDictionarySameOrder | RockSchedule/Classes/OrderedSet/OrderedSet.swift:498-508 | Equal index dictionaries mean equal sequences |
| OrderedSetSpec.PutBack | RockSchedule/Classes/OrderedSet/OrderedSet.swift:108-110 | Taking an object out and putting it back at its index restores the sequence |
| OrderedSetSpec.InsertStep | RockSchedule/Classes/OrderedSet/OrderedSet.swift:368-370 | Each exchange with the left neighbour inserts the object one place further left |
| OrderedSetSpec.MoveStep | RockSchedule/Classes/OrderedSet/OrderedSet.swift:316-329 | Each exchange with a neighbour moves the object by one place |
| OrderedSetSpec.AddedIsNew | RockSchedule/Classes/OrderedSet/OrderedSet.swift:392-399 | What a bulk insertion adds are exactly the missing objects, each once |
| OrderedSetSpec.AddNext | RockSchedule/Classes/OrderedSet/OrderedSet.swift:392-399 | The next missing object goes behind those already added |
| OrderedSetSpec.RemainingNext | RockSchedule/Classes/OrderedSet/OrderedSet.swift:212-217 | Examining one object removes it from the rest exactly if it satisfies the predicate |
| OrderedSetSpec.RemovedNext | RockSchedule/Classes/OrderedSet/OrderedSet.swift:212-217 | ... and appends it to the removed ones |
| OrderedSetSpec.FilterSplits | RockSchedule/Classes/OrderedSet/OrderedSet.swift:208-219 | Filtered removal splits the set: each object is kept or removed, not both |
| OrderedSetSpec.WithoutIsCut | RockSchedule/Classes/OrderedSet/OrderedSet.swift:143-163 | Removing a member of a duplicate-free sequence cuts its position |
| OrderedSetModel.SequencedContents.Copy | RockSchedule/Classes/OrderedSet/OrderedSet.swift:42-51 | The copy has fresh cells for the same elements |
| OrderedSetModel.OrderedSet.From | RockSchedule/Classes/OrderedSet/OrderedSet.swift:68-76 | The set made of a sequence holds its objects, each at its first occurrence |
| OrderedSetModel.OrderedSet.Shared | RockSchedule/Classes/OrderedSet/OrderedSet.swift:5-10 | An assigned set has the same sequence and shares the storage |
| OrderedSetModel.OrderedSet.MakeUnique | RockSchedule/Classes/OrderedSet/OrderedSet.swift:114-116 | Shared storage is replaced by a fresh copy; sole storage is kept |
| OrderedSetModel.OrderedSet.IndexOf | RockSchedule/Classes/OrderedSet/OrderedSet.swift:94-100 | The index of a member, or none |
| OrderedSetModel.OrderedSet.Append | RockSchedule/Classes/OrderedSet/OrderedSet.swift:106-121 | A new object goes last; a member keeps its place; shared storage stays as it is |
| OrderedSetModel.OrderedSet.Remove | RockSchedule/Classes/OrderedSet/OrderedSet.swift:143-165 | The object is cut out and its former index returned; shared storage stays as it is |
| OrderedSetModel.OrderedSet.ShiftIndices | RockSchedule/Classes/OrderedSet/OrderedSet.swift:154-160 | In whatever order the entries are visited, exactly the indices from the removed one on go down by one |
| OrderedSetModel.OrderedSet.SwapObject | RockSchedule/Classes/OrderedSet/OrderedSet.swift:244-257 | Two members change places; otherwise nothing happens |
| OrderedSetModel.OrderedSet.MoveObject | RockSchedule/Classes/OrderedSet/OrderedSet.swift:298-331 | A member is moved to the index, all others keep their order |
| OrderedSetModel.OrderedSet.Insert | RockSchedule/Classes/OrderedSet/OrderedSet.swift:356-371 | A new object is inserted at the index, a member stays where it is; the mutual recursion with append ends |
| OrderedSetModel.OrderedSet.InsertAll | RockSchedule/Classes/OrderedSet/OrderedSet.swift:381-406 | The result is the prefix, the missing objects in order, and the suffix |
| OrderedSetModel.OrderedSet.AddAll | RockSchedule/Classes/OrderedSet/OrderedSet.swift:386-399 | The first loop inserts the missing objects, with indices right up to the last of them |
| OrderedSetModel.OrderedSet.FixIndices | RockSchedule/Classes/OrderedSet/OrderedSet.swift:403-405 | The last loop makes dictionary and array mutual inverses again |
| OrderedSetModel.OrderedSet.RemoveAllWhere | RockSchedule/Classes/OrderedSet/OrderedSet.swift:208-219 | The set keeps the objects that fail the predicate and a new set holds the others, both in order |
| OrderedSetModel.AppendMember | RockSchedule/Classes/OrderedSet/OrderedSet.swift:108-110 | A concrete use: appending the first of two members changes nothing |
| OrderedSetModel.OrderedSet.Equals | RockSchedule/Classes/OrderedSet/OrderedSet.swift:498-508 | `==` is equality of the sequences |
| OrderedSetSharing.ApplyTo | RockSchedule/Classes/OrderedSet/OrderedSet.swift:106-406 | An operation on one set changes what no other set shows, whoever shares storage with whom |
| OrderedSetSharing.Execute | RockSchedule/Classes/OrderedSet/OrderedSet.swift:42-406 | Any program of declarations, assignments and operations over sets that share storage computes what it computes on plain sequences |
| OrderedSetSharing.ResultsNext | RockSchedule/Classes/OrderedSet/OrderedSet.swift:106-406 | The meaning of a program extends statement by statement |
| LemonTables.FindShiftAction | Example/Pods/WCDBOptimizedSQLCipher/parse.c:2127-2190 | The lookup loop ends; whatever rows the tables pack, it finds the entry of the state's row for the token, without one that for the fallback, without either that for the wildcard, and else the default |
| LemonTables.LookupIsRow | Example/Pods/WCDBOptimizedSQLCipher/parse.c:2127-2190 | The lookup in the packed tables gives what the unpacked row gives |
| LemonTables.FindReduceAction | Example/Pods/WCDBOptimizedSQLCipher/parse.c:2196-2220 | The goto found is the packed entry for the nonterminal |
| LemonTables.PackedLookupIsExact | Example/Pods/WCDBOptimizedSQLCipher/parse.c:314-361 | Rows packed at different offsets never alias: a lookup finds its own row's entry, and nothing exactly where the row has none |
| LemonTables.LookupIsCertified | Example/Pods/WCDBOptimizedSQLCipher/parse.c:2127-2190 | With certified tables every lookup gives a certified action for a terminal the token may be read as |
| LemonGrammar.WrapStandsFor | Example/Pods/WCDBOptimizedSQLCipher/parse.c:5021-5039 | The symbol a stack entry carries stands for its tree also when left-out unit rules are put back |
| LemonGrammar.WrapKeeps | Example/Pods/WCDBOptimizedSQLCipher/parse.c:5021-5039 | Putting left-out unit rules back changes only a tree's symbol |
| LemonGrammar.ForestBounded | Example/Pods/WCDBOptimizedSQLCipher/parse.c:5171-5289 | The reductions recorded on a stack are bounded by the tokens shifted, so the loop ends |
| LemonParser.TopActionIsRow | Example/Pods/WCDBOptimizedSQLCipher/parse.c:5171-5186 | A round of the loop takes the action that the unpacked row of the top state gives for the token |
| LemonParser.ErrorIsRefusal | Example/Pods/WCDBOptimizedSQLCipher/parse.c:5187-5260 | A certified parser meets the error action only in a state whose row has nothing for the token, its fallback or the wildcard but that action |
| LemonParser.ReverseAt | Example/Pods/WCDBOptimizedSQLCipher/parse.c:2225-2244 | Destroying from the top down reverses the order of the stack |
| LemonParser.PushIsCoherent | Example/Pods/WCDBOptimizedSQLCipher/parse.c:2299-2307 | Pushing within what the new code knows keeps every entry truthful about the stack below it |
| LemonParser.PopIsCoherent | Example/Pods/WCDBOptimizedSQLCipher/parse.c:2029-2042 | Popping keeps the rest of the stack coherent |
| LemonParser.RhsIsOnStack | Example/Pods/WCDBOptimizedSQLCipher/parse.c:5021-5038 | At a certified reduction the top entries are an instance of the rule's right-hand side |
| LemonParser.ReduceIsCoherent | Example/Pods/WCDBOptimizedSQLCipher/parse.c:5021-5038 | A reduction keeps the stack coherent and the tokens it derives, and records at least one more reduction |
| LemonParser.AcceptHoldsSentence | Example/Pods/WCDBOptimizedSQLCipher/parse.c:5183-5186 | With the accept code on top the stack is one tree for the start symbol over all tokens read |
| LemonParser.FusedShiftSimulatesPlain | Example/Pods/WCDBOptimizedSQLCipher/parse.c:2299-2303 | A fused shift-reduce action behaves, on any lookahead, as a plain shift followed by a reduction by the same rule |
| LemonParser.TopStateDoesNotMatter | Example/Pods/WCDBOptimizedSQLCipher/parse.c:5021-5038 | A reduction by a rule that is not empty does not look at the top state |
| LemonParser.Parser.constructor | Example/Pods/WCDBOptimizedSQLCipher/parse.c:1826-1850 | A new parser has only the bottom entry |
| LemonParser.Parser.PopParserStack | Example/Pods/WCDBOptimizedSQLCipher/parse.c:2029-2042 | One entry goes and is destroyed once |
| LemonParser.Parser.PopAll | Example/Pods/WCDBOptimizedSQLCipher/parse.c:2225-2244 | An overflow destroys every entry above the bottom exactly once, from the top down |
| LemonParser.Parser.Shift | Example/Pods/WCDBOptimizedSQLCipher/parse.c:2270-2307 | The token is pushed, with a pending reduce for a fused action; a full stack overflows; the top stays in the array |
| LemonParser.Parser.ReplaceRhs | Example/Pods/WCDBOptimizedSQLCipher/parse.c:5021-5039 | With room on the stack the right-hand side gives way to the left-hand side with the goto of the uncovered state |
| LemonParser.Parser.Reduce | Example/Pods/WCDBOptimizedSQLCipher/parse.c:3101-3128 | The right-hand side gives way to the left-hand side with the goto of the uncovered state; an empty rule on a full stack overflows |
| LemonParser.Parser.ReductionsRemain | Example/Pods/WCDBOptimizedSQLCipher/parse.c:5171-5289 | The measure on which the loop's termination rests never gets negative |
| LemonParser.Parser.ParseRound | Example/Pods/WCDBOptimizedSQLCipher/parse.c:5171-5260 | One round reduces, shifts, accepts, reports an error or overflows, exactly as the action of the top state says |
| LemonParser.Parser.AcceptRound | Example/Pods/WCDBOptimizedSQLCipher/parse.c:5183-5186 | Accepting empties a stack that holds one sentence |
| LemonParser.Parser.Parse | Example/Pods/WCDBOptimizedSQLCipher/parse.c:5135-5303 | The loop ends; a shifted token is appended to what the stack derives, an accept has read a sentence with its meaning, an error is met only where the row of the top state refuses the token and changes nothing, an overflow leaves the bottom only |
| LemonParser.Parser.ParseTokens | Example/Pods/WCDBOptimizedSQLCipher/src/tokenize.c:597-655 | A run of the token loop that accepts has read a sentence of the grammar, up to fallback and wildcard, followed by the end token; the loop may break off after any number of tokens |
| LemonExample.TinyIsCertified | Example/Pods/WCDBOptimizedSQLCipher/parse.c:314-361 | The certificate can be met: a small grammar with packed tables |
| Authentication.AuthenticationInterceptor.IsRefreshExcessive | Example/Pods/Alamofire/Source/AuthenticationInterceptor.swift:355-368 | True exactly if the timestamps within the window reach the maximum |
| Authentication.AuthenticationInterceptor.Refresh | Example/Pods/Alamofire/Source/AuthenticationInterceptor.swift:330-353 | An allowed refresh is recorded, flagged and queued; an excessive one fails all waiting operations |
| Authentication.AuthenticationInterceptor.Adapt | Example/Pods/Alamofire/Source/AuthenticationInterceptor.swift:250-274 | The locked part defers during a refresh, fails without credential, starts a refresh if required, else adapts |
| Authentication.AuthenticationInterceptor.RetryLater | Example/Pods/Alamofire/Source/AuthenticationInterceptor.swift:319-325 | The locked part queues the retry and starts a refresh unless one is under way |
| Authentication.AuthenticationInterceptor.HandleRefreshSuccess | Example/Pods/Alamofire/Source/AuthenticationInterceptor.swift:370-386 | Waiting operations move to one queue block and the credential is replaced |
| Authentication.AuthenticationInterceptor.HandleRefreshFailure | Example/Pods/Alamofire/Source/AuthenticationInterceptor.swift:388-402 | Waiting operations move to one queue block that fails them |
| Authentication.RefreshConserves | Example/Pods/Alamofire/Source/AuthenticationInterceptor.swift:330-353 | Starting or refusing a refresh moves operations and loses none |
| Authentication.AdaptLocksPlaces | Example/Pods/Alamofire/Source/AuthenticationInterceptor.swift:251-274 | The critical section of adapt puts its operation in exactly one place and moves no other |
| Authentication.AdaptAnswersPlaces | Example/Pods/Alamofire/Source/AuthenticationInterceptor.swift:276-288 | Giving the answer after the lock is released keeps the operation in one place |
| Authentication.QueueStepPlaces | Example/Pods/Alamofire/Source/AuthenticationInterceptor.swift:381-401 | Running the queue, up to the lock of a drained operation, loses or repeats none |
| Authentication.StepPlaces | Example/Pods/Alamofire/Source/AuthenticationInterceptor.swift:250-402 | Every step adds to an operation's places exactly its submission |
| Authentication.EveryRunKeepsInv | Example/Pods/Alamofire/Source/AuthenticationInterceptor.swift:250-402 | In every interleaving each submitted operation is in exactly one place (waiting, in a drain block, between lock and answer, answered), `isRefreshing` holds exactly while one refresh is under way, and otherwise nobody waits |
| Authentication.NobodyIsAnsweredTwice | Example/Pods/Alamofire/Source/AuthenticationInterceptor.swift:250-402 | In no run is an operation answered twice or answered while it waits |
| Authentication.NobodyIsStranded | Example/Pods/Alamofire/Source/AuthenticationInterceptor.swift:250-402 | When queue, refreshes and threads have come to rest every submitted operation has been answered once |
| Authentication.SomethingGoesOn | Example/Pods/Alamofire/Source/AuthenticationInterceptor.swift:250-402 | In no run is the protocol stuck before it is at rest: a thread, the queue or a refresh can go on without a client |
| Authentication.StepWork | Example/Pods/Alamofire/Source/AuthenticationInterceptor.swift:250-402 | Every step that goes on without starting a refresh leaves less to do |
| Authentication.GoingOnEnds | Example/Pods/Alamofire/Source/AuthenticationInterceptor.swift:250-402 | In every run, steps that go on without starting a refresh are bounded in number by the work there was |
| Authentication.ComesToRest | Example/Pods/Alamofire/Source/AuthenticationInterceptor.swift:250-402 | From every run on, boundedly many steps that need no client lead to rest |
| Authentication.CredentialIsLastSet | Example/Pods/Alamofire/Source/AuthenticationInterceptor.swift:219-222 | After any run the credential is what the last setter or successful refresh since any earlier moment left, or that moment's |
| Authentication.RefreshingIsStarted | Example/Pods/Alamofire/Source/AuthenticationInterceptor.swift:330-353 | A refresh is under way exactly while more have been started than completed, counted from any earlier moment |
| Authentication.AdaptedWasDecided | Example/Pods/Alamofire/Source/AuthenticationInterceptor.swift:250-289 | Every request adapted in a run was decided on under the lock, with the credential then current, not to be refreshed, and no refresh under way |
| Authentication.AppliedCredentialIsCurrent | Example/Pods/Alamofire/Source/AuthenticationInterceptor.swift:273-280 | When a request is adapted, after the lock was released, its credential is still current if and only if no event since the decision has left another, and a refresh is under way if and only if more have been started since than completed |
| Authentication.RequestMayBeAdaptedWithReplacedCredential | Example/Pods/Alamofire/Source/AuthenticationInterceptor.swift:273-280 | A run in which a request is adapted during a refresh with a credential that has been replaced |
| Authentication.RetryHolds | Example/Pods/Alamofire/Source/AuthenticationInterceptor.swift:307-310 | A retry keeps the credential it has read until it answers or locks |
| Authentication.RetryRefreshesReplacedCredential | Example/Pods/Alamofire/Source/AuthenticationInterceptor.swift:307-325 | A retry starts a refresh of a credential that is no longer current if and only if none is under way, the window allows one, and an event since the read has left another credential |
| Authentication.RetryMayRefreshReplacedCredential | Example/Pods/Alamofire/Source/AuthenticationInterceptor.swift:307-325 | A run in which that happens |
| Authentication.WithinIsSince | Example/Pods/Alamofire/Source/AuthenticationInterceptor.swift:360-363 | Timestamps in an interval are at most those since an earlier time |
| Authentication.OneMoreIsWithinLimit | Example/Pods/Alamofire/Source/AuthenticationInterceptor.swift:330-338 | One more start keeps every window within the limit although the time recorded is later than the time checked |
| Authentication.StepRecords | Example/Pods/Alamofire/Source/AuthenticationInterceptor.swift:330-338 | A step records at most one start, which the window allowed |
| Authentication.RunKeepsLimit | Example/Pods/Alamofire/Source/AuthenticationInterceptor.swift:330-338 | Timestamps stay in order and within the limit in every run |
| Authentication.RefreshRateIsLimited | Example/Pods/Alamofire/Source/AuthenticationInterceptor.swift:330-368 | In every run every closed interval of the window's length holds at most the maximum number of started refreshes |
| Authentication.StepCalls | Example/Pods/Alamofire/Source/AuthenticationInterceptor.swift:340-352 | A step calls the authenticator for the one refresh that waits, or not at all |
| Authentication.RunKeepsCalls | Example/Pods/Alamofire/Source/AuthenticationInterceptor.swift:337-352 | In every run each refresh is called between its own start and the next |
| Authentication.CallRateIsLimited | Example/Pods/Alamofire/Source/AuthenticationInterceptor.swift:337-368 | In every run every closed interval of the window's length holds at most one call of the authenticator more than the window allows starts |
| AuthenticationAnswers.StepDoes | Example/Pods/Alamofire/Source/AuthenticationInterceptor.swift:250-402 | Every step orders at the end of the serial queue and does from its head |
| AuthenticationAnswers.QueueDoesAsOrdered | Example/Pods/Alamofire/Source/AuthenticationInterceptor.swift:340-401 | In every run what the queue has done and still has to do is, in order, what was ordered: calls of the authenticator with the credential of the operation that asked, retries, new adaptations and failures |
| AuthenticationAnswers.WaitingRetryRetries | Example/Pods/Alamofire/Source/AuthenticationInterceptor.swift:382-385 | Every retry that waits when a refresh succeeds is answered Retry, or is going to be |
| AuthenticationAnswers.WaitingIsFailed | Example/Pods/Alamofire/Source/AuthenticationInterceptor.swift:331-335 | Every operation that waits when a refresh fails or is refused is answered with its error, or is going to be |
| AuthenticationAnswers.RetryAnswerHasReason | Example/Pods/Alamofire/Source/AuthenticationInterceptor.swift:293-317 | A retry is answered on what it found itself (refused at once, no credential, another credential) or as it was ordered while it waited |
| AuthenticationAnswers.FailureHasReason | Example/Pods/Alamofire/Source/AuthenticationInterceptor.swift:259-263 | A request fails to be adapted only because there was no credential at its decision, or as it was ordered while it waited |
| AuthenticationAnswers.DecisionIs | Example/Pods/Alamofire/Source/AuthenticationInterceptor.swift:251-274 | What the critical section of adapt decides: a failure without credential, an adaptation with the current one, or nothing yet |
| AuthenticationAnswers.StepWaits | Example/Pods/Alamofire/Source/AuthenticationInterceptor.swift:253-269 | Who waits: retries from their lock, requests deferred by or for a refresh, until one completes or is refused |
| AuthenticationAnswers.RetryWaits | Example/Pods/Alamofire/Source/AuthenticationInterceptor.swift:319-325 | In every run a retry waits from its lock on until a refresh completes or is refused |
| AuthenticationAnswers.RefusedExactly | Example/Pods/Alamofire/Source/AuthenticationInterceptor.swift:330-368 | In every run a refresh is refused if and only if at least the maximum have been started within the interval that ends when it is asked for |
| MultipartFormat.FindsWhereItStands | Example/Pods/Alamofire/Source/MultipartFormData.swift:64-77 | A pattern that cannot overlap itself is found where it was put exactly if what precedes does not contain it |
| MultipartFormat.HeaderDecodes | Example/Pods/Alamofire/Source/MultipartFormData.swift:394-400 | A header line decodes to its header exactly if the name does not contain ": " |
| MultipartFormat.HeadersDecode | Example/Pods/Alamofire/Source/MultipartFormData.swift:394-400 | Encoded headers decode to themselves and the rest exactly if no header text contains CRLF and no name ": " |
| MultipartFormat.PartDecodes | Example/Pods/Alamofire/Source/MultipartFormData.swift:375-392 | A part decodes to itself exactly if it is plain, and what follows its delimiter decides how decoding goes on |
| MultipartFormat.OnePartBytes | Example/Pods/Alamofire/Source/MultipartFormData.swift:64-77 | The bytes of a form with one part are those section 5.1.1 of RFC 2046 prescribes |
| MultipartFormat.DecodesUpToFinal | Example/Pods/Alamofire/Source/MultipartFormData.swift:64-77 | What a decoder makes of an encoding are the parts up to and including the first with a final boundary, exactly if these are plain |
| MultipartFormat.DecodesExactly | Example/Pods/Alamofire/Source/MultipartFormData.swift:64-77 | For every boundary without CR and every non-empty part list, a decoder after section 5.1.1 of RFC 2046 gives back the parts if and only if no header text, name or body contains what ends it and only the last part has a final boundary |
| Multipart.ChunksDoNotMatter | Example/Pods/Alamofire/Source/MultipartFormData.swift:409-422 | How a stream cuts its bytes into reads does not change the body |
| Multipart.YieldsBody | Example/Pods/Alamofire/Source/MultipartFormData.swift:402-431 | A part yields the error of the read that fails, or all its bytes if they are as many as announced, or the two numbers |
| Multipart.EncodedYields | Example/Pods/Alamofire/Source/MultipartFormData.swift:322-338 | If each part yields bytes, encoding succeeds with exactly these |
| Multipart.EncodedFails | Example/Pods/Alamofire/Source/MultipartFormData.swift:322-338 | Otherwise encoding fails with what the first part yields that fails |
| Multipart.RoundTrip | Example/Pods/Alamofire/Source/MultipartFormData.swift:322-338 | Decoding one `encode()` gives back the parts if and only if they are plain and no part but the last had its final flag already |
| Multipart.FormReflects | Example/Pods/Alamofire/Source/MultipartFormData.swift:329-330 | After any appends, failed appends and encodings, part i has its final flag if and only if an `encode()` that got past the part error ran while it was last |
| Multipart.UsesRoundTrip | Example/Pods/Alamofire/Source/MultipartFormData.swift:322-338 | An `encode()` after any uses that succeeds decodes to its parts if and only if they are plain and no `encode()` ran between the first append and the last |
| Multipart.UsesDecode | Example/Pods/Alamofire/Source/MultipartFormData.swift:322-338 | After any uses a decoder finds the parts up to and including the first that was last in some `encode()`, exactly if these are plain |
| Multipart.Play | Example/Pods/Alamofire/Source/MultipartFormData.swift:307-338 | Any sequence of uses leaves the form as the history says |
| Multipart.FirstErrorStays | Example/Pods/Alamofire/Source/MultipartFormData.swift:539-542 | The first part that could not be made decides the error of every later `encode()` |
| Multipart.EncodedTwice | Example/Pods/Alamofire/Source/MultipartFormData.swift:402-431 | An `encode()` that succeeds uses up all streams, so the next one succeeds exactly if nothing was announced |
| Multipart.EncodedAgain | Example/Pods/Alamofire/Source/MultipartFormData.swift:402-431 | With used-up streams another `encode()` succeeds exactly if every announced length is zero |
| Multipart.KeptBoundaryHides | Example/Pods/Alamofire/Source/MultipartFormData.swift:329-330 | A part that kept its final boundary hides the one behind it: a decoder finds the first alone |
| Multipart.AppendAfterEncode | Example/Pods/Alamofire/Source/MultipartFormData.swift:322-338 | A concrete use, encode, append, encode, whose result decodes to the first part alone |
| Multipart.MultipartFormData.Append | Example/Pods/Alamofire/Source/MultipartFormData.swift:307-310 | A part is added behind the others, without boundary flags |
| Multipart.MultipartFormData.SetBodyPartError | Example/Pods/Alamofire/Source/MultipartFormData.swift:539-542 | The first part error stays |
| Multipart.MultipartFormData.Encode | Example/Pods/Alamofire/Source/MultipartFormData.swift:322-338 | An earlier part error is thrown with nothing changed; else flags are set, streams are used up to the first failing part, and the result is the concatenation or its error |
| Multipart.MultipartFormData.EncodePart | Example/Pods/Alamofire/Source/MultipartFormData.swift:375-392 | Boundary, headers, body and final boundary in order, or the body's error |
| Multipart.MultipartFormData.EncodeBodyStream | Example/Pods/Alamofire/Source/MultipartFormData.swift:402-431 | The method returns what its part yields: the read error, all bytes if they are as many as announced, or the length error |
| RequestTaskMapModel.InversesHaveOneSize | Example/Pods/Alamofire/Source/RequestTaskMap.swift:89-113 | Mutually inverse maps have the same size, so the counts never fail their preconditions |
| RequestTaskMapModel.AssociatedIsOneToOne | Example/Pods/Alamofire/Source/RequestTaskMap.swift:62-64 | Associating keeps the map one to one if and only if neither end belongs to another pair |
| RequestTaskMapModel.StaysOneToOne | Example/Pods/Alamofire/Source/RequestTaskMap.swift:62-64 | Through any sequence of associations the map stays one to one if and only if any two pairs that share one end share the other |
| RequestTaskMapModel.CountStays | Example/Pods/Alamofire/Source/RequestTaskMap.swift:89-94 | Through any sequence of associations the count stays valid if and only if each brings a new request just when it brings a new task |
| RequestTaskMapModel.CountAssociated | Example/Pods/Alamofire/Source/RequestTaskMap.swift:62-94 | After any associations the count fails exactly if the pairs name different numbers of requests and tasks |
| RequestTaskMapModel.CountAfterSecondTask | Example/Pods/Alamofire/Source/RequestTaskMap.swift:62-94 | A concrete use: a request given a second task breaks the pairing and makes the count fatal |
| RequestTaskMapModel.RemovedUndoesAssociated | Example/Pods/Alamofire/Source/RequestTaskMap.swift:55-64 | Removing undoes associating a fresh pair |
| RequestTaskMapModel.FatalIffNotAllowed | Example/Pods/Alamofire/Source/RequestTaskMap.swift:115-148 | An event is fatal if and only if its task was never associated or had it before |
| RequestTaskMapModel.LastEventRemoves | Example/Pods/Alamofire/Source/RequestTaskMap.swift:120-147 | A pair is removed by exactly the last of its events, in either order |
| RequestTaskMapModel.StepDescribes | Example/Pods/Alamofire/Source/RequestTaskMap.swift:47-148 | One step keeps the maps equal to the unfinished pairs of the history, with the events delivered so far |
| RequestTaskMapModel.Run | Example/Pods/Alamofire/Source/RequestTaskMap.swift:47-148 | In every run that associates fresh pairs and delivers each event at most once nothing is fatal, each pair goes with exactly its last event, and the maps hold exactly the unfinished pairs |
| RequestTaskMapModel.RequestTaskMap.SetTask | Example/Pods/Alamofire/Source/RequestTaskMap.swift:47-66 | The setter associates, or removes the request's pair from all three maps, or is fatal |
| RequestTaskMapModel.RequestTaskMap.SetRequest | Example/Pods/Alamofire/Source/RequestTaskMap.swift:68-87 | The same from the task's side |
| RequestTaskMapModel.RequestTaskMap.Count | Example/Pods/Alamofire/Source/RequestTaskMap.swift:89-94 | The count, or a failed precondition exactly if the maps differ in size |
| RequestTaskMapModel.RequestTaskMap.EventCount | Example/Pods/Alamofire/Source/RequestTaskMap.swift:96-100 | Never fails on a consistent map |
| RequestTaskMapModel.RequestTaskMap.IsEmpty | Example/Pods/Alamofire/Source/RequestTaskMap.swift:102-107 | Never fails on a consistent map, and then says whether all three maps are empty |
| RequestTaskMapModel.RequestTaskMap.DisassociateAfterGatheringMetrics | Example/Pods/Alamofire/Source/RequestTaskMap.swift:115-125 | Records the event, removes the pair, or is fatal |
| RequestTaskMapModel.RequestTaskMap.DisassociateAfterCompleting | Example/Pods/Alamofire/Source/RequestTaskMap.swift:127-148 | The same for completion; without metrics it removes at once |

## Left out

- The 369 semantic actions and the concrete tables of the parser: actions are an abstract function, tables are any that meet the certificate.
- Completeness of the parser (that it accepts every sentence): a property of the table generator, which is not part of this model.
- Stack high-water tracking, tracing and the growing stack of the parser: build options other than the fixed stack.
- The tokenizer: only its loop over tokens is modelled; what makes it stop early is not, but it may stop anywhere.
- FinalTimetable.FinalMap.InsertItem: does not model `keys`, `startDate` and `nowWeek`, which do not enter the index.
- FinalTimetable.FinalMap.Final: does not model `startDate` and `specialTime` of a section; `startDate` can change without the cache being cleared.
- FinalTimetable.FinalMap.InsertNode: a slot's list is a value here, since `Map` reads, changes and writes it back; the list on the heap is proved in `LinkedList.dfy`.
- Timetable.AlwaysInverse: assumes insertions made through `insert(course:)`; a direct `insert(node:in:)` with another day is not covered.
- FinalTimetable.FinalMap.ShownIsPartition: the same; `Show` derives it for all insertions of courses.
- FinalMap is one class with what it inherits from `Map`; `kind(of:with:)` is not overridden.
- Node fields outside its equality, and which of two equal nodes a dictionary keeps as its key.
- LinkedListModel.LinkedList.CopyNodesSetting: sets the new identity after the copy, where the source does so before; no index is compared in between.
- LinkedListModel.LinkedList.Insert: does not model a chain shared with another list value, which the source changes in place.
- `LinkedList.replaceSubrange`, whose branches miscount `count`.
- The subscript setter, `removeAllObjects`, set algebra and iteration of `OrderedSet`; deallocation of cells.
- OrderedSetSharing.Execute: a variable's value is never released, so storage may count as shared for longer than in the source, which costs a copy and changes no result.
- LRUSpec.SizeIsBounded: limits are fixed; changing them while other threads run is not modelled.
- Memory-warning notifications of the cache: they call `removeAllValues`, which is modelled.
- Building the authenticated request, real threads, locks and queues: steps are atomic and interleave freely.
- Authentication.AuthenticationInterceptor.RetryLater: the checks before the lock are the events that refuse or admit a retry, not calls into the authenticator.
- Multipart.MultipartFormData.Encode: one stream used by two parts is not modelled; each part has its own.
- `writeEncodedData`, file and MIME type handling of multipart parts: input and output.
- A preamble, transport padding and other header syntax a decoder may meet: the encoder never produces them.
- RequestTaskMapModel.RequestTaskMap.DisassociateAfterCompleting: the branch of systems without metrics is a parameter.
- Views, networking, storage, JSON, dates and the remaining small types of the repository: they would add only easy members.
