# COMP6771 containers and algorithms, modelled in Dafny

This project models five pieces of a C++ course repository and proves what
they promise:

- `gdwg::graph<N, E>` (`assignment/ass3/graph.hpp`): a directed weighted
  graph with an ordered set of nodes and an ordered map from each source to
  its ordered set of (destination, weight) edges. It has mutators that throw
  on missing nodes, cascading node erasure, node renaming and merging,
  sorted queries, equality, and a bidirectional iterator over all edges.
  Module `Gdwg` holds the class `Graph`, which owns the two containers as
  sequence fields. Module `GraphRep` holds the container operations and the
  representation lemmas. Module `NodeOps` holds the set algebra of node
  erasure and merging.
- The word ladder (`assignment/ass1/word_ladder.cpp`). It buckets the words
  of the lexicon by one-letter wildcard classes, runs a breadth-first search
  that keeps every predecessor on a shortest path, and collects, reverses
  and sorts all shortest ladders. Module `LadderGraph` holds the graph
  being searched and module `WordLadder` holds the algorithm.
- `q2::record` (`exam/q3_record.hpp`): a string-to-string map with an
  escaping text form and a line parser (module `Records`).
- `q2::query` and its subclasses (`exam/q2_query.hpp`): a datatype with one
  `Matches` function (module `Queries`).
- `q2::database` (`exam/q2_database.hpp`): a vector of records with
  append, delete-matching and select (module `Databases`).

`N` and `E` are fixed to `int`. `std::set` and `std::map` are ascending
sequences under a comparator (module `Ordered`). Exceptions become the `Err`
case of a `Result`, and state is unchanged on `Err`. `std::unordered_set`
and `std::unordered_map` become Dafny `set` and `map`. Their iteration order
is a nondeterministic choice (`:|`), so every property is proved for every
order.

## Model

| member | source | states |
|---|---|---|
| Ordered.Position | assignment/ass3/graph.hpp:474-475 | `lower_bound`: every element before the index is below `x`, none from it on is, and `x` is present iff it sits at that index |
| Ordered.Insert | assignment/ass3/graph.hpp:474 | `std::set::insert` keeps the order, adds exactly `x`, and grows by one iff `x` was absent |
| Ordered.Remove | assignment/ass3/graph.hpp:474 | `std::set::erase` keeps the order, removes exactly `x`, and shrinks by one iff `x` was present |
| Ordered.AscendingUnique | assignment/ass3/graph.hpp:474 | two ordered sets with the same elements are the same sequence |
| Ordered.Lookup | exam/q3_record.hpp:76 | `std::map::find` finds a value iff the key is stored, and that value is the one stored under it |
| Ordered.Put | exam/q3_record.hpp:43 | after `m[k] = v` the key holds `v`, every other key keeps its lookup, the keys stay ordered, and the size grows iff `k` is new |
| Ordered.InsertAtKeys | exam/q3_record.hpp:43 | inserting a new entry at the key's lower bound gives ordered keys, the new lookup, and every other lookup unchanged |
| Ordered.EraseKey | exam/q3_record.hpp:37 | `std::map::erase` removes the key, keeps every other lookup, and shrinks iff the key was present |
| Ordered.EraseAtKeys | assignment/ass3/graph.hpp:475 | erasing the entry at an index keeps the keys ordered and every other lookup |
| Ordered.UpdateAtKeys | assignment/ass3/graph.hpp:475 | overwriting the value at an index keeps the keys and every other lookup |
| Ordered.EraseAtSet | assignment/ass3/graph.hpp:475 | erasing from an ordered set at a position keeps the order and removes exactly that element |
| Ordered.LexOrder | exam/q2_query.hpp:56 | lexicographic order over a strict total order is a strict total order |
| Ordered.StringOrder | exam/q2_query.hpp:56 | `<` on `std::string` is a strict total order |
| Ordered.InsertSorted | assignment/ass1/word_ladder.cpp:198 | inserting into a sorted sequence keeps it sorted and adds exactly one copy of the element |
| Ordered.Sort | assignment/ass1/word_ladder.cpp:198 | `std::sort` returns a sorted permutation of its input |
| Ordered.SortedUnique | assignment/ass1/word_ladder.cpp:198 | under a strict total order a multiset has one sorted arrangement, so any sorting algorithm gives the result `Sort` gives |
| Ordered.SortDistinct | assignment/ass1/word_ladder.cpp:198 | sorting a sequence in which nothing repeats gives a strictly ascending one |
| GraphRep.IntOrder | assignment/ass3/graph.hpp:400-412 | `node_cmp` on values is a strict total order |
| GraphRep.EdgeOrder | assignment/ass3/graph.hpp:429-436 | `edge_cmp` (destination, then weight) is a strict total order |
| GraphRep.TripleOrder | assignment/ass3/graph.hpp:485-523 | the iteration order (source, destination, weight) is a strict total order |
| GraphRep.AddNode | assignment/ass3/graph.hpp:79 | `nodes_.emplace` keeps the nodes ordered and adds exactly `v` |
| GraphRep.RemoveNode | assignment/ass3/graph.hpp:183-184 | `nodes_.erase` keeps the nodes ordered and removes exactly `v` |
| GraphRep.EdgesOfByBucket | assignment/ass3/graph.hpp:475 | a triple is stored iff its edge is in its source's bucket |
| GraphRep.FindBucket | assignment/ass3/graph.hpp:107 | `edges_.find(k)` is before the end iff `k` has a bucket, and then points at that bucket |
| GraphRep.FindEdge | assignment/ass3/graph.hpp:118 | `std::set<edge>::find` is before the end iff the edge is present, and then points at it |
| GraphRep.AddEdge | assignment/ass3/graph.hpp:122 | `emplace` into a bucket keeps it ordered and adds exactly the edge |
| GraphRep.EraseEdgeAt | assignment/ass3/graph.hpp:237 | erasing a bucket's edge at a position keeps it ordered, removes exactly that edge, and keeps the edges around it in place |
| GraphRep.PutBucket | assignment/ass3/graph.hpp:110-114 | `edges_.emplace` for a new source adds its bucket and changes no other |
| GraphRep.SetBucket | assignment/ass3/graph.hpp:122 | updating one bucket in place changes no other bucket and no key |
| GraphRep.DropBucket | assignment/ass3/graph.hpp:240-242 | `edges_.erase` removes one source and shifts the later buckets down by one |
| GraphRep.WeightsToSpec | assignment/ass3/graph.hpp:308-315 | the weights collected from an ordered bucket are ascending and are exactly the weights of its edges to `dst` |
| GraphRep.DestinationsSpec | assignment/ass3/graph.hpp:337-344 | the destinations collected from an ordered bucket are ascending and are exactly those of its edges, each once |
| GraphRep.OneBucketChange | assignment/ass3/graph.hpp:475 | changing only the bucket of `k` keeps the invariant and changes only the triples leaving `k` |
| GraphRep.FlattenAt | assignment/ass3/graph.hpp:509-511 | the iteration sequence lists bucket `k`'s edges in order from the bucket's offset |
| GraphRep.FlattenElements | assignment/ass3/graph.hpp:514-523 | the iteration sequence holds exactly the stored triples |
| GraphRep.FlattenAscending | assignment/ass3/graph.hpp:514-523 | the iteration sequence is strictly ascending in (source, destination, weight) |
| GraphRep.Canonical | assignment/ass3/graph.hpp:349-377 | a well-formed state is determined by its node set and its triple set |
| GraphRep.SameSetsSameState | assignment/ass3/graph.hpp:349-377 | two well-formed states are equal iff their node sets and triple sets are |
| GraphRep.WeightsOf | assignment/ass3/graph.hpp:298-317 | the weights collected from the bucket of `src` are ascending and are exactly the weights of the triples from `src` to `dst` |
| GraphRep.DestinationsOf | assignment/ass3/graph.hpp:327-345 | the destinations collected from the bucket of `src` are ascending and are exactly the nodes some triple from `src` reaches |
| GraphRep.ConnectedByBucket | assignment/ass3/graph.hpp:279-280 | finding `dst` in the bucket of `src` succeeds iff some triple goes from `src` to `dst` |
| GraphRep.FlattenAfterErase | assignment/ass3/graph.hpp:564-576 | removing one triple removes exactly its place from the iteration sequence |
| GraphRep.InsertInEdges | assignment/ass3/graph.hpp:107-124 | adding an edge between nodes keeps the invariant and adds exactly that triple |
| GraphRep.MovedPlace | assignment/ass3/graph.hpp:564-576 | after erasing an edge, an iterator past it, re-based, is one place earlier |
| GraphRep.EraseInEdges | assignment/ass3/graph.hpp:564-576 | erasing the edge at a position, and its bucket if it empties, keeps the invariant and removes exactly that triple |
| GraphRep.EraseInOrder | assignment/ass3/graph.hpp:564-576 | erasing the edge at a position removes exactly that place from the iteration sequence |
| GraphRep.RangeStep | assignment/ass3/graph.hpp:579-585 | one step of the range erase removes one more place of the original sequence and moves the stop iterator back by one |
| GraphRep.EraseKeepEdges | assignment/ass3/graph.hpp:196-203 | erasing an edge inside a node loop keeps the invariant and every key, and removes exactly that triple |
| GraphRep.DropEmpty | assignment/ass3/graph.hpp:206-208 | dropping an emptied bucket leaves no empty bucket and the same triples |
| GraphRep.NodeGone | assignment/ass3/graph.hpp:183-184 | a node no triple mentions can be removed and the invariant still holds |
| NodeOps.Touching | assignment/ass3/graph.hpp:197 | exactly the triples with `v` as source or destination |
| NodeOps.Rename | assignment/ass3/graph.hpp:156-167 | a triple with `o` renamed to `n` mentions `n` where it mentioned `o`, no longer mentions `o`, keeps its weight, and is unchanged when `o` does not occur |
| NodeOps.MergedIsRenaming | assignment/ass3/graph.hpp:142-185 | for `o != n` the merged triples are the renamed triples, and none mentions `o` |
| NodeOps.MergedSelf | assignment/ass3/graph.hpp:142-185 | `merge_replace_node(n, n)` as written removes every triple that mentions `n` |
| NodeOps.RenameBack | assignment/ass3/graph.hpp:127-140 | replacing `o` by a fresh `n` and then `n` by `o` restores the triples |
| NodeOps.MergeCollapsesDuplicates | assignment/ass3/graph.hpp:142-185 | merging `a` into `b` when both have an edge to `c` of weight 5 leaves one such edge |
| NodeOps.MergeStepSets | assignment/ass3/graph.hpp:156-167 | one replacement step moves one triple from the to-do part to its renamed copy |
| NodeOps.MergeDone | assignment/ass3/graph.hpp:148-180 | once no triple mentions `o`, the triples are the merged ones |
| Gdwg.Graph.constructor | assignment/ass3/graph.hpp:26 | no nodes and no edges |
| Gdwg.Graph.FromNodes | assignment/ass3/graph.hpp:28-37 | the nodes are exactly the given values and there are no edges |
| Gdwg.Graph.Copy | assignment/ass3/graph.hpp:52-69 | the copy has the nodes and triples of the original, so `Equals` holds |
| Gdwg.Graph.InsertBucket | assignment/ass3/graph.hpp:64-68 | inserting a bucket's edges adds exactly their triples |
| Gdwg.Graph.IsNode | assignment/ass3/graph.hpp:253-257 | true iff the value is a node |
| Gdwg.Graph.Empty | assignment/ass3/graph.hpp:259-261 | true iff there are no nodes |
| Gdwg.Graph.InsertNode | assignment/ass3/graph.hpp:77-83 | returns true iff the value was not a node; afterwards it is one and the edges are unchanged |
| Gdwg.Graph.InsertEdge | assignment/ass3/graph.hpp:85-125 | fails with no change on a missing endpoint; otherwise returns true iff the triple was new and adds exactly it |
| Gdwg.Graph.EraseEdge | assignment/ass3/graph.hpp:217-244 | fails with no change on a missing endpoint; otherwise returns true iff the triple was there and removes exactly it, pruning an emptied bucket |
| Gdwg.Graph.EraseNode | assignment/ass3/graph.hpp:187-214 | returns true iff the node was there; removes it and exactly the triples that mention it, leaving no empty bucket |
| Gdwg.Graph.PurgeStep | assignment/ass3/graph.hpp:195-212 | one turn of the outer loop clears the triples mentioning `v` from one more bucket |
| Gdwg.Graph.PurgeBucket | assignment/ass3/graph.hpp:196-203 | the inner loop erases exactly the bucket's edges that mention `v` |
| Gdwg.Graph.NextBucket | assignment/ass3/graph.hpp:206-211 | an emptied bucket is erased, otherwise the loop moves on; the triples are unchanged |
| Gdwg.Graph.MergeReplaceNode | assignment/ass3/graph.hpp:142-185 | fails with no change unless both nodes exist; otherwise removes `o` and leaves exactly the merged triples |
| Gdwg.Graph.MergeEdges | assignment/ass3/graph.hpp:148-180 | the loops leave exactly the merged triples and none mentioning `o` |
| Gdwg.Graph.MergeStep | assignment/ass3/graph.hpp:148-179 | one turn of the outer loop keeps the merge invariant and makes progress |
| Gdwg.Graph.MergeBucket | assignment/ass3/graph.hpp:155-171 | the inner loop replaces every edge of one bucket that mentions `o` |
| Gdwg.Graph.MergeEdge | assignment/ass3/graph.hpp:156-170 | one turn of the inner loop replaces one edge mentioning `o`, or steps past one that does not |
| Gdwg.Graph.MoveEdge | assignment/ass3/graph.hpp:157-166 | `insert_edge` of the renamed copy, then erase of the old edge, keeps the loop position valid |
| Gdwg.Graph.ReinsertEdge | assignment/ass3/graph.hpp:157 | the `insert_edge` inside the loop adds exactly the renamed triple, and the old edge is found again |
| Gdwg.Graph.ReplaceNode | assignment/ass3/graph.hpp:127-140 | fails if `o` is missing; returns false with no change if `n` exists; otherwise `o` is gone, `n` is present and every triple mentioning `o` now mentions `n` |
| Gdwg.Graph.IsConnected | assignment/ass3/graph.hpp:264-281 | fails on a missing endpoint; otherwise true iff some triple, of any weight, goes from `src` to `dst` |
| Gdwg.Graph.Nodes | assignment/ass3/graph.hpp:284-290 | every node once, ascending |
| Gdwg.Graph.Weights | assignment/ass3/graph.hpp:293-318 | fails on a missing endpoint; otherwise exactly the weights of the `src`-to-`dst` triples, ascending |
| Gdwg.Graph.Connections | assignment/ass3/graph.hpp:321-346 | fails on a missing `src`; otherwise exactly the destinations of triples from `src`, ascending and so each once |
| Gdwg.Graph.Equals | assignment/ass3/graph.hpp:349-377 | true iff the graphs have the same nodes and the same triples |
| Gdwg.Graph.Begin | assignment/ass3/graph.hpp:587-593 | `begin()` is at place 0 of the iteration sequence |
| Gdwg.Graph.End | assignment/ass3/graph.hpp:595-597 | `end()` is one past the last triple |
| Gdwg.Graph.Iteration | assignment/ass3/graph.hpp:514-523 | walking from `begin()` to `end()` visits every triple once, in ascending order, and `begin() == end()` iff there are no edges |
| Gdwg.Graph.Deref | assignment/ass3/graph.hpp:509-511 | `*it` is the stored triple at the iterator's place |
| Gdwg.Graph.IterEq | assignment/ass3/graph.hpp:546-549 | two iterators compare equal iff they are at the same place |
| Gdwg.Graph.Increment | assignment/ass3/graph.hpp:514-523 | `++` moves to the next place |
| Gdwg.Graph.Decrement | assignment/ass3/graph.hpp:531-538 | `--` moves to the previous place, so it undoes `++` |
| Gdwg.Graph.Find | assignment/ass3/graph.hpp:600-614 | `end()` for an absent triple, otherwise an iterator that dereferences to it |
| Gdwg.Graph.EraseAt | assignment/ass3/graph.hpp:564-576 | removes exactly the triple at the iterator and returns the iterator to its successor, now at the same place |
| Gdwg.Graph.EraseRange | assignment/ass3/graph.hpp:579-585 | removes exactly the triples from `i` up to `s`, keeps the rest in order, and returns an iterator at `i`'s place |
| Gdwg.Graph.EraseBefore | assignment/ass3/graph.hpp:581-583 | one turn of the range loop erases one triple and keeps the stop iterator at the same triple |
| Gdwg.Graph.Clear | assignment/ass3/graph.hpp:246-250 | no nodes and no edges |
| Gdwg.CollectWeights | assignment/ass3/graph.hpp:308-315 | the loop of `weights` computes the weights to `dst` in bucket order |
| Gdwg.CollectDestinations | assignment/ass3/graph.hpp:337-344 | the loop of `connections` computes each destination once in bucket order |
| LadderGraph.Wildcard | assignment/ass1/word_ladder.cpp:33-34 | the class keeps the word's length, has `'*'` at `i` and the word's letters elsewhere |
| LadderGraph.AdjacentSameLength | assignment/ass1/word_ladder.cpp:60-69 | words sharing a class have the same length |
| LadderGraph.AdjacentSymmetric | assignment/ass1/word_ladder.cpp:60-69 | sharing a class is symmetric |
| LadderGraph.AdjacentReflexive | assignment/ass1/word_ladder.cpp:60-69 | every non-empty word is among its own neighbours |
| LadderGraph.OneApartAdjacent | assignment/ass1/word_ladder.cpp:60-69 | two words differing at exactly one position share a class |
| LadderGraph.AdjacentOneApart | assignment/ass1/word_ladder.cpp:60-69 | distinct words without `'*'` that share a class differ at exactly one position |
| LadderGraph.StarWordsAdjacent | assignment/ass1/word_ladder.cpp:60-69 | with `'*'` in the words, `*b` and `a*` share a class though they differ at two positions |
| LadderGraph.LadderExtend | assignment/ass1/word_ladder.cpp:112-114 | a ladder followed by an adjacent word is a ladder |
| LadderGraph.DropRepeat | assignment/ass1/word_ladder.cpp:60-69 | a word repeated in place can be dropped from a ladder |
| LadderGraph.ShortestSteps | assignment/ass1/word_ladder.cpp:145-202 | consecutive words of a shortest ladder differ, and for words without `'*'` they differ at exactly one position |
| WordLadder.BucketWord | assignment/ass1/word_ladder.cpp:32-45 | filing a new word under each of its classes gives bags holding exactly the earlier words and the new one, each under exactly its classes |
| WordLadder.LexiconWordBags | assignment/ass1/word_ladder.cpp:16-49 | the bags hold exactly the lexicon words of the given length, each under exactly its classes, and no empty class |
| WordLadder.Neighbours | assignment/ass1/word_ladder.cpp:52-75 | a word is returned iff it is a bagged word sharing a class with the target |
| WordLadder.Pop | assignment/ass1/word_ladder.cpp:85-88 | taking the head of the queue keeps the search invariant, with the head being settled |
| WordLadder.NoShorter | assignment/ass1/word_ladder.cpp:96-101 | a neighbour already found is never further than one more than `u`, so the branch that shortens a distance never runs |
| WordLadder.Visit | assignment/ass1/word_ladder.cpp:90-115 | visiting one neighbour keeps the search invariant: a new word gets distance plus one, joins the queue and gets `u` as its predecessor, and a word at that distance gets `u` appended; no predecessor list names a word twice |
| WordLadder.LevelUnrepeated | assignment/ass1/word_ladder.cpp:102-107 | `u` is not yet a predecessor of a neighbour it has not visited, so `push_back(u)` repeats no word |
| WordLadder.VisitNew | assignment/ass1/word_ladder.cpp:109-115 | a word found for the first time joins the queue with `u` as its only predecessor, keeping the invariant |
| WordLadder.VisitLevel | assignment/ass1/word_ladder.cpp:102-107 | a word one further than `u` gets `u` as one more predecessor, keeping the invariant |
| WordLadder.Settle | assignment/ass1/word_ladder.cpp:89-119 | once all its neighbours are visited, `u` is settled and the invariant of the outer loop holds |
| WordLadder.Finish | assignment/ass1/word_ladder.cpp:85-121 | with the queue empty, the predecessor lists name exactly the adjacent words one nearer, and the flag holds iff `dest` was reached |
| WordLadder.VisitAll | assignment/ass1/word_ladder.cpp:89-119 | visiting every neighbour keeps the invariant and raises the flag iff `dest` is among them |
| WordLadder.Bfs | assignment/ass1/word_ladder.cpp:78-122 | the distances cover the reachable words; each predecessor list holds exactly the adjacent words one nearer, each once, and none is empty; the flag holds iff `dest` was reached, when `dest != src` |
| WordLadder.LadderBound | assignment/ass1/word_ladder.cpp:78-122 | a ladder reaches only found words and has at least distance plus one words |
| WordLadder.LadderTo | assignment/ass1/word_ladder.cpp:78-122 | every found word has a ladder of distance plus one words |
| WordLadder.SearchedReach | assignment/ass1/word_ladder.cpp:78-122 | the search finds a word iff some ladder from the start reaches it |
| WordLadder.SearchedShortest | assignment/ass1/word_ladder.cpp:78-122 | a ladder is a shortest one iff it has the distance of its last word plus one words |
| WordLadder.Reverse | assignment/ass1/word_ladder.cpp:193-195 | element `i` of the result is element `|s|-1-i` of the input |
| WordLadder.ReverseTwice | assignment/ass1/word_ladder.cpp:193-195 | reversing twice gives the input back |
| WordLadder.SearchedRanked | assignment/ass1/word_ladder.cpp:125-131 | predecessor lists lead to strictly nearer words or to `""`, so `collect_paths` terminates |
| WordLadder.CollectPaths | assignment/ass1/word_ladder.cpp:125-142 | appends exactly the paths from `u` back along the predecessor lists to `""`, in list order, each after `path` |
| WordLadder.CollectedSound | assignment/ass1/word_ladder.cpp:125-142 | read backwards, every collected path is a ladder from the start to `u` of distance plus one words |
| WordLadder.CollectedComplete | assignment/ass1/word_ladder.cpp:125-142 | read backwards, every ladder of distance plus one words to `u` is collected |
| WordLadder.CollectedPrefix | assignment/ass1/word_ladder.cpp:125-142 | a path collected from `v` after `path` starts with `path`, then `v`, and is `path` itself when `v` is the empty string |
| WordLadder.CollectedDistinct | assignment/ass1/word_ladder.cpp:125-142 | when no predecessor list repeats a word, no path is collected twice |
| WordLadder.CollectedFromDistinct | assignment/ass1/word_ladder.cpp:134-139 | paths through different predecessors of `u` differ, so the loop over the predecessors collects no path twice |
| WordLadder.LadderOrder | assignment/ass1/word_ladder.cpp:198 | `<` on `std::vector<std::string>` is a strict total order |
| WordLadder.CollectedLadders | assignment/ass1/word_ladder.cpp:186-195 | the reversed collected paths are exactly the shortest ladders, each once |
| WordLadder.Generate | assignment/ass1/word_ladder.cpp:145-202 | empty on different lengths, a missing word or equal words; otherwise exactly the shortest ladders through the lexicon words of that length, each once, in strictly ascending order, and empty when `to` is unreachable |
| Records.GetValue | exam/q3_record.hpp:16-22 | the value stored under the key, or `""` when it is not stored |
| Records.HasAttribute | exam/q3_record.hpp:24-30 | true iff the key is stored |
| Records.StoredEntry | exam/q3_record.hpp:16-30 | an entry is stored iff `has_attribute` holds and `get_value` returns its value |
| Records.Count | exam/q3_record.hpp:31-33 | the number of distinct keys |
| Records.Assign | exam/q3_record.hpp:42-44 | after `values_[key] = val` the key holds `val`, other keys keep their values, and the count grows iff the key is new |
| Records.Erased | exam/q3_record.hpp:37 | after `values_.erase(key)` the key is gone, other keys keep their values, and the count drops iff the key was there |
| Records.Record.constructor | exam/q3_record.hpp:14 | no attributes |
| Records.Record.SetValue | exam/q3_record.hpp:42-44 | the attributes become `Assign(old, key, val)` |
| Records.Record.DeleteAttribute | exam/q3_record.hpp:35-41 | returns true iff the key was there; the attributes become `Erased(old, key)` |
| Records.Record.Read | exam/q3_record.hpp:53-74 | consumes lines up to and including the first `}`, or all of them, and leaves the attributes `ReadLines` gives |
| Records.Find | exam/q3_record.hpp:79-82 | `find(t, pos)` is the first index from `pos` where `t` occurs, or none |
| Records.FindShift | exam/q3_record.hpp:82 | searching from inside a string only depends on the text after that point |
| Records.ReplacedStep | exam/q3_record.hpp:79-83 | `string_replace` keeps the text up to the first occurrence, writes the replacement, and goes on after the occurrence |
| Records.StringReplace | exam/q3_record.hpp:77-85 | the loop computes `Replaced`: occurrences replaced left to right, without rescanning inserted text |
| Records.ReplacedAbsent | exam/q3_record.hpp:77-85 | a string without the target comes back unchanged |
| Records.ReplacedChar | exam/q3_record.hpp:48 | replacing one character is a character-by-character map |
| Records.EscapeText | exam/q3_record.hpp:48 | the two `string_replace` calls escape `!` as `!!` and then `=` as `!=` |
| Records.EscapeEach | exam/q3_record.hpp:48 | escaping works character by character |
| Records.EscapedEquals | exam/q3_record.hpp:48 | in escaped text every `=` follows a `!` |
| Records.EscapePlain | exam/q3_record.hpp:48 | text without `!` and `=` is written unchanged |
| Records.Serialise | exam/q3_record.hpp:45-52 | the text is `{`, one escaped `key=value` line per attribute in key order, then `}` |
| Records.SerialisedLines | exam/q3_record.hpp:45-52 | that text is the record's lines, each ended by a line end |
| Records.ParseLine | exam/q3_record.hpp:62-70 | the key and value `operator>>` takes from a line, as written, each no longer than the line; Records.ParsePlain gives the split of a plain line, and Records.BangKeyMisread and Records.EmptyKeyMisread the two kinds of line it misreads |
| Records.Separator | exam/q3_record.hpp:63-68 | the separator the loop finds is an index of the line, or `npos` |
| Records.SplitLine | exam/q3_record.hpp:62-70 | the loop body computes the key and value `ParseLine` gives |
| Records.ParsePlain | exam/q3_record.hpp:62-70 | a line without `!` whose first `=` is past position 0 splits into the text before that `=` and the text after it |
| Records.PlainLine | exam/q3_record.hpp:45-70 | a plain attribute's line is not `{` or `}` and splits back into its key and value |
| Records.ReadStep | exam/q3_record.hpp:55-71 | a line other than `{` and `}` sets one attribute and reading goes on |
| Records.ReadPlain | exam/q3_record.hpp:53-74 | reading the lines of plain attributes sets exactly those attributes over the existing ones |
| Records.RoundTripPlain | exam/q3_record.hpp:45-74 | writing and reading back a record whose keys are non-empty and whose keys and values avoid `!` and `=` gives the same attributes |
| Records.BangKeyMisread | exam/q3_record.hpp:62-68 | the attribute `a!` = `b` is written as `a!!=b` and read back as `a=b` = `a=b` |
| Records.EmptyKeyMisread | exam/q3_record.hpp:63-68 | the attribute `""` = `b` is written as `=b` and read back as `=b` = `=b` |
| Records.ParseEscapedRoundTrip | exam/q3_record.hpp:48 | the corrected line parser recovers every key and value from their escaped line |
| Records.ReadEscaped | exam/q3_record.hpp:53-74 | reading any record's lines with the corrected parser sets exactly its attributes over the existing ones |
| Records.RoundTripEscaped | exam/q3_record.hpp:45-74 | with the corrected parser, writing and reading back any record gives the same attributes |
| Queries.Matches | exam/q2_query.hpp:22-168 | the `matches` methods; a query on an attribute never matches a record without it, and Queries.EqualsMatches to Queries.CombinedMatches state each case both ways |
| Queries.Clone | exam/q2_query.hpp:19-172 | a clone matches exactly the records the original matches |
| Queries.AllMatches | exam/q2_query.hpp:22-24 | the base query matches every record |
| Queries.EqualsMatches | exam/q2_query.hpp:33-38 | matches iff the record holds `v` under `a`; never when `a` is absent |
| Queries.LessThanMatches | exam/q2_query.hpp:54-59 | matches iff the record holds under `a` a value lexicographically below `v`; never when `a` is absent |
| Queries.GreaterThanMatches | exam/q2_query.hpp:76-81 | matches iff the record holds under `a` a value lexicographically above `v`; never when `a` is absent |
| Queries.StartsWithMatches | exam/q2_query.hpp:97-106 | matches iff the record holds under `a` a value beginning with `v`; never when `a` is absent |
| Queries.CombinedMatches | exam/q2_query.hpp:120-168 | `and`, `or` and `not` give the conjunction, disjunction and negation of their sub-queries |
| Queries.CompareTrichotomy | exam/q2_query.hpp:33-81 | for a present attribute, equals, less-than or greater-than matches, and less-than excludes the other two |
| Databases.Filter | exam/q2_database.hpp:48-52 | the records a query matches, in order, never more than the input |
| Databases.FilterMembers | exam/q2_database.hpp:48-52 | a record is kept iff it is one of the records and the query matches it |
| Databases.FilterAppend | exam/q2_database.hpp:48-52 | filtering a concatenation filters each part |
| Databases.FilterSplit | exam/q2_database.hpp:41-45 | the records a query matches and those it rejects together number all the records |
| Databases.PrintedAppend | exam/q2_database.hpp:27-32 | the printed form of a concatenation is the concatenation of the printed forms |
| Databases.Database.constructor | exam/q2_database.hpp:16 | no records |
| Databases.Database.Count | exam/q2_database.hpp:23-25 | the number of records, which every query splits into those `select` copies and those `delete_matching` keeps |
| Databases.Database.Insert | exam/q2_database.hpp:19-21 | appends the record at the end, and the count grows by one |
| Databases.Database.DeleteMatching | exam/q2_database.hpp:41-45 | keeps exactly the records the query rejects, in order, and returns how many went; the count drops by that number |
| Databases.Database.Select | exam/q2_database.hpp:46-54 | a new database of exactly the matching records, in order; this one is unchanged |
| Databases.Database.Print | exam/q2_database.hpp:27-32 | the concatenation of every record's text, in storage order |

## Findings

| source | as written | input that shows it | evidently intended | confidence | as-written member | corrected member |
|---|---|---|---|---|---|---|
| exam/q3_record.hpp:62-68 | `operator>>` turns `!!` back into `!` before it looks for the separator, so an escaped `!` just before the separator looks like an escaped `=` | the record `{"a!": "b"}`, written as the line `a!!=b`, reads back as `{"a=b": "a=b"}` | reading back what `operator<<` wrote gives the same record | high, not executed | Records.BangKeyMisread | Records.RoundTripEscaped |
| exam/q3_record.hpp:63-68 | for a separator at index 0, `p - 1` wraps around to `npos`, which equals the `npos` of a missing `!=`, so the loop skips the separator | the record `{"": "b"}`, written as the line `=b`, reads back as `{"=b": "=b"}` | reading back what `operator<<` wrote gives the same record | high, not executed | Records.EmptyKeyMisread | Records.RoundTripEscaped |

`Records.ParseLine` and `Records.Record.Read` keep the parser as written, so
the model of `operator>>` stays faithful. `Records.ParseEscaped` and
`Records.ReadLinesEscaped` are the corrected parser and reader. They undo
the escaping one character at a time and split at the first unescaped `=`.
`Records.RoundTripEscaped` proves the intended round trip for every record.

## Left out

- The `weights_` pool and `shared_ptr` ownership in `graph.hpp`. The pool is never observable, so the model keeps only `nodes_` and `edges_`.
- Move construction and move assignment of the graph: the moved-from state is unspecified.
- The graph's `operator<<`: it renders `int` values as text.
- `swap`, the iterator's postfix `++` and `--`, and `erase_edge(iterator)`'s internal copy are covered through the operations that use them; they are not modelled separately.
- Gdwg.Graph.Increment, Gdwg.Graph.Decrement, Gdwg.Graph.Deref: stepping past `end()`, before `begin()`, or dereferencing `end()` is undefined in C++, so these are preconditions.
- Gdwg.Graph.MergeReplaceNode: `merge_replace_node(n, n)` is modelled as written, and NodeOps.MergedSelf states what it does (the node and every triple that mentions it disappear). No precondition `o != n` is added.
- Ordered.Sort: `std::sort` is modelled as insertion sort. Ordered.SortedUnique shows that every sorted permutation is the same sequence, so the algorithm does not matter.
- Unordered containers: iteration order and hashing are not modelled. Each loop over an `unordered_set` takes the elements in an arbitrary order.
- WordLadder.Neighbours: the "fatal error" print for a class without a bag is left out, and that class is skipped, as the code does.
- WordLadder.Bfs: `distance` is an `int` in the source and a `nat` here. Distances are at most the number of words, so no overflow is modelled.
- WordLadder.CollectPaths: the shared `path` vector, pushed and popped around each call, is passed by value as `path + [u]`.
- LadderGraph.ShortestSteps: exactly one changed letter per step is proved only for words without `'*'`. LadderGraph.StarWordsAdjacent shows that words with `'*'` can share a class two positions apart.
- Queries.StartsWithMatches: `query_starts_with` builds the regular expression `"^" + value`. The model treats `value` as a literal prefix, which is what that expression means when `value` has no regular-expression metacharacters. Full `std::regex` semantics are not modelled.
- `clone()` pointers, the destructors of `query_and`, `query_or` and `query_not`, and raw-pointer memory: the query tree is a value.
- The database's `operator>>`: stream reading is not modelled.
- Records.Record.Read: the stream is a sequence of lines, each shorter than `npos`. Line ends and `std::getline` are not modelled.
- Records.RoundTripPlain: the round trip of the code as written is proved only for keys and values without `!` and `=` and with non-empty keys. The Findings table shows inputs outside those bounds that fail.
- Database and record streams: `std::ostream` output is a returned string.
- Strings are sequences of characters, not of bytes as `std::string` is. The model agrees with the source on ASCII text. It differs on multi-byte UTF-8 text: `size()`, the position `at(i) = '*'` overwrites, and so word lengths and word classes count bytes in the source and characters here. For example, `aé` has two characters but three bytes. `<` on strings compares characters here, and on valid UTF-8 that gives the same order as the source's byte comparison.
