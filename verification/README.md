# trietree in Dafny

A model of the Go package `trietree`, a trie with Aho-Corasick failure links.
The model covers the package itself and its two wrappers, `trie` and `trie2`.

- **DTree, the growable tree.** Each node keeps its children in a binary
  search tree of siblings ordered by rune (`Low`/`High`). `Put` digs a path for
  a key and hands out dense edge ids 1, 2, 3, … in order of first insertion.
- **Failure links.** `FillFailure` fills in the links. `ScanContext` then
  walks the text and, for every rune, reports the (id, level) of every key that
  ends at that rune. It finds them by following the failure chain.
- **STree, the frozen tree.** `Freeze` flattens a DTree into an array. Each
  node's children sit in one contiguous, sorted index range, found by binary
  search, and failure links are indices. The STree scans, answers
  longest-prefix queries and serialises to a stream of zigzag varints. `Read`
  reads that stream back.
- **Predictions.** `PredictIter` (a pull iterator) and `PredictSeq` (a push
  iterator) turn every match into a `Prediction`: the byte span of the key in
  the query, and its id.
- **Wrappers.** `trie.Trie` is a put-then-freeze facade. `trie2.DTrie` and
  `trie2.STrie` attach a value to every key.

## How the model is built

- **Pointers become paths.** A node of the growable tree is named by its path:
  the runes spelled from the root. Failure pointers become a `map<Path, Path>`,
  and `nil` becomes an absent key or `None`.
- **Values, not mutation.** Every operation is a pure function from the old
  tree to the new one, or a method with loops.
- **Partners.** Each operation is paired with an independent reference
  definition or an inverse:
  - `Put` with `IdAt` and `LevelAt`;
  - the scan with "longest suffix in the trie";
  - `Freeze` with the growable tree it came from;
  - `Write` with `Read`;
  - both iterators with one list of expected predictions.
- **Four defects.** Proving these properties uncovered four defects in the
  source. They are listed under "Findings" below. Each is modelled twice: as
  written, and corrected.

## Modules

- **Base:** option type, paths, Go integer widths and UTF-8 byte lengths.
- **Siblings:** the sibling search tree: `dig`, `Get`, `eachSiblings` and
  `CountChild`.
- **Dynamic:** the DTree:
  - `Put`, `Get`, `nextNode` and `ScanContext`;
  - the depth-first `FillFailure` as written;
  - `LongestPrefix` and `CountAll`.
- **Failure:** what the failure links are meant to be:
  - the longest proper suffix that is a node of the trie;
  - the corrected fill, proofs about scans, and the counterexample.
- **Static:** the STree: `find` (with `sort.Search`), `nextNode`, the
  depth-first `fillFailure` as written, `ScanContext` and `LongestPrefix`.
- **Layout:** the array layout `Freeze` builds with `procNode`.
- **Freeze:** `Freeze`, and the proofs that a frozen tree behaves like the
  filled growable tree.
- **Codec:** `encoding/binary` varints, plus the `writer` and `reader` of
  `io.go`.
- **Serial:** `STree.Write` and `Read`.
- **Predict:** the generic traverser, `trailingIndex`, the pull iterator
  `predictIter` and the push iterator `predict`.
- **Adapters:** the two `predictableTree` instances.
- **Report:** `reportDynamic` and `reportStatic`.
- **Trie:** package `trie`.
- **Trie2:** package `trie2`.

## Model

| member | source | states |
|---|---|---|
| Siblings.Get | dynamic.go:56-69 | A child found carries the requested rune, and that rune is among the siblings. In an ordered sibling tree, every rune present is found. |
| Siblings.Dig | dynamic.go:29-53 | Adds exactly the rune to the labels and keeps the search-tree order. Afterwards `Get` finds the existing child, or a fresh `&DNode{Label: c}`. Every other rune finds what it found before, and an existing rune leaves the tree unchanged. |
| Siblings.CountChild | dynamic.go:180-185 | Equals the number of siblings `eachSiblings` visits. In an ordered tree it equals the number of distinct labels. It is zero exactly when there is no child. |
| Siblings.InOrderSorted | dynamic.go:135-142 | `eachSiblings` visits an ordered sibling tree in strictly ascending rune order. |
| Siblings.InOrderLabels | dynamic.go:135-142 | `eachSiblings` visits every label of the sibling tree and nothing else. |
| Siblings.GetInOrder | dynamic.go:56-69 | In an ordered sibling tree, `Get` of a visited sibling's rune returns exactly that sibling. |
| Dynamic.Put | dynamic.go:72-85 | Returns the key's existing id, or `lastEdgeID + 1` for a new key. The counter moves only for a new key, and the returned id is positive. Afterwards the key's node carries that id and level = rune count. The failure links are untouched. |
| Dynamic.PutEffect | dynamic.go:72-85 | Put adds exactly the prefixes of the key as nodes. The id of every other path, and the level of every other existing node, stay as they were. |
| Dynamic.PutValid | dynamic.go:72-85 | Put keeps the tree invariant: sibling order, ids dense in 1..lastEdgeID and unique per key, level equal to path length, failure links well formed. |
| Dynamic.PutIdempotent | dynamic.go:79-84 | Putting the same key a second time returns the same id and changes nothing. |
| Dynamic.DistinctKeysGetConsecutiveIds | dynamic.go:79-82 | Putting distinct new keys one after another yields the ids lastEdgeID+1, lastEdgeID+2, … in order, and keeps the invariant. |
| Dynamic.DenseIdsFromEmpty | dynamic.go:79-82 | From the zero DTree, the i-th distinct key receives id i+1. |
| Dynamic.Lookup | dynamic.go:145-154 | `DTree.Get` returns the node the key spells, or nil. In a sorted trie it returns a node exactly when the key is a path of the trie. |
| Dynamic.NextNode | dynamic.go:116-131 | The goto/fail step lands on the root or on a node whose last rune is `c`. It is at most one rune deeper than the current node, and stays inside the trie when the links do. |
| Dynamic.FillFailureAsWritten | dynamic.go:157-161 | The as-written fill keeps the nodes and the id counter, and leaves the root without a link. |
| Dynamic.FillFailureAsWrittenValid | dynamic.go:157-178 | After the as-written fill the tree is still valid. Every non-root node has a link, and no link points to its own node. |
| Dynamic.FillNodeAsWritten | dynamic.go:163-178 | Every link left by the recursive pass, old or new, points to a strictly shorter path, so following links always ends. Which nodes it links, and where to, is stated by Dynamic.FillNodeCovers, Dynamic.FillNodeFrame and Dynamic.FillNodeInTrie. |
| Dynamic.FillNodeCovers | dynamic.go:163-178 | The recursive pass from a node links every node strictly below it. |
| Dynamic.FillNodeFrame | dynamic.go:163-178 | The recursive pass from a node writes no link outside that node's subtree. |
| Dynamic.FillNodeInTrie | dynamic.go:163-178 | The recursive pass only links to nodes that exist in the trie. |
| Dynamic.CollectChain | dynamic.go:101-105 | The inner scan loop collects (id, level) for every node with an id along the failure chain, in chain order. |
| Dynamic.Scan | dynamic.go:94-114 | One event per rune, each equal to the event defined from the automaton state after that rune. The scan ends with an error exactly when the context is found cancelled at the check that follows an event (the last one included); the events emitted up to that check are kept. |
| Dynamic.LongestPrefix | dynamic.go:197-216 | Returns the longest non-empty prefix of `s` that is a key, with its id, or ("", 0) when no non-empty prefix is a key. |
| Dynamic.CountAll | dynamic.go:187-194 | `CountAll` counts the node itself and every node below it. It is at least 1, and exactly 1 when the node has no child. In a sorted trie it is the number of nodes (Dynamic.CountAllIsNodeCount). |
| Dynamic.CountAllIsNodeCount | dynamic.go:187-194 | In a sorted trie, `CountAll` equals the number of distinct paths, i.e. of nodes. |
| Failure.NextNodeIsLongestSuffix | dynamic.go:116-131 | With correct links up to the current depth, `nextNode(curr, c)` is the longest suffix of `curr + c` that is a node of the trie. |
| Failure.FillFailure | dynamic.go:157-178 | The corrected fill keeps nodes and counter. It links exactly the non-root nodes, each to a strictly shorter path. |
| Failure.FillFailureCorrect | dynamic.go:157-178 | After the corrected fill the tree is valid, and every link is the longest proper suffix that is a node of the trie. |
| Failure.FillFailureIsStepFixpoint | dynamic.go:168-174 | The corrected links satisfy the source's own recurrence: a child's link is `nextNode(parent's link, label)`, with a self-link replaced by the root. |
| Failure.StepIsProperSuffix | dynamic.go:168-174 | When the links are correct at the parent's depth, the recurrence yields the longest proper suffix of the child in the trie. |
| Failure.RunIsLongestSuffix | dynamic.go:94-131 | With correct links, the state after scanning `s` is the longest suffix of `s` that is a node of the trie. |
| Failure.ChainIsSuffixes | dynamic.go:101-105 | With correct links, the failure chain from a node visits exactly its suffixes that are nodes of the trie. |
| Failure.ScanNodesLongestFirst | dynamic.go:101-105 | The matches of one scan event come in strictly decreasing level order: longest key first. |
| Failure.ScanReportsKeysEndingHere | dynamic.go:94-114 | After the corrected fill, the event for rune j lists exactly the keys that are suffixes of `s[..j+1]`, each with its id and its rune count as level. |
| Failure.ExampleIsPut | dynamic.go:72-85 | Putting "abcd", "bc", "cd" into the zero tree builds the example trie and returns ids 1, 2, 3. |
| Failure.DepthFirstExampleLink | dynamic.go:163-178 | In the example, the as-written depth-first fill links "abcd" to the root instead of to "cd". |
| Failure.DepthFirstScanMissesKey | dynamic.go:94-114 | With the as-written links, scanning "abcd" reports only "abcd" (id 1, level 4) at the last rune, and misses "cd". |
| Failure.CorrectedScanFindsKey | dynamic.go:157-178 | With the corrected links, the same event reports both "cd" (id 3, level 2) and "abcd" (id 1, level 4). |
| Static.Find | static.go:124-132 | `find` is `sort.Search`'s halving search over [a, b) followed by a label check. It returns -1, or an index inside [a, b) whose label is `c`, on every range, sorted or not. |
| Static.SearchBrackets | static.go:125-127 | Each halving step of `sort.Search` keeps the bracket: the label just before the answer is below `c`, and the label at the answer is at least `c`. |
| Static.SearchIsLowerBound | static.go:124-132 | On a sorted range, `sort.Search` returns the first index whose label is at least `c`. |
| Static.UnsortedFind | static.go:124-132 | On the unsorted range of labels 'c', 'a', 'b', `find` of 'b' returns the slot of 'b', although a first-label-at-least-'b' scan would stop on 'c': the halving search is not a linear scan. |
| Static.FindComplete | static.go:124-132 | On a sorted range, `find` returns -1 exactly when no index of the range carries `c`. |
| Static.SearchRange | static.go:125-127 | The loop of `sort.Search` returns x in [a, b] with the label before x below `c` and the label at x at least `c`. On a sorted range, x is the first index whose label is at least `c`. |
| Static.FindIndex | static.go:124-132 | The loop implementation of `find` returns the same index as the `sort.Search` definition on every range: -1 or an index labelled `c`. On a sorted range it misses exactly when the rune is absent. |
| Static.NextNode | static.go:110-122 | The index-based goto/fail step, with `find` as `sort.Search`, returns a valid index: the root, or a node labelled `c`. |
| Static.NextNodeDepth | static.go:110-122 | While every link leads to a shallower slot, the step lands on the root or on a slot at most one level deeper than the current one. |
| Static.FillStep | static.go:67-72 | One turn of the loop of `fillFailure`: the link `nextNode(parent's Fail, label)`, with a self-link replaced by 0, still leads to a shallower slot. A child of the root always gets 0. |
| Static.FillChildren | static.go:62-75 | The loop over one slot's children, with the recursive fill of each child, changes only `Fail` fields. It keeps every filled link leading to a shallower slot, and the root's link 0. |
| Static.FillFrom | static.go:62-75 | The depth-first `fillFailure` as written changes only `Fail` fields. Afterwards the layout is kept, every non-root link leads to a shallower slot, and the root's link is 0. |
| Static.FillFromAcyclic | static.go:57-75 | After the fill from the root, following `Fail` from any slot reaches the root, and no slot fails to itself. |
| Static.DepthFirstStaticLink | static.go:62-75 | On the array laid out for "abcd", "bc", "cd", the as-written fill links "abc" to "bc" but links "abcd" to the root instead of to the slot of "cd". The scan event at the "d" of "abcd" then lists only "abcd" (id 1, level 4), and misses "cd" (id 3, slot 8). |
| Static.ExampleRunABCD | static.go:84-122 | On any acyclic array with the example's ranges and labels, scanning "abcd" goes down the slots of "a", "ab", "abc", "abcd". When "abcd" fails to the root, the event of the last rune lists only "abcd". |
| Static.CollectChain | static.go:91-99 | The inner scan loop follows `Fail` while the index is positive, collecting (id, Levels[id-1] or -1) for each id. |
| Static.Scan | static.go:84-108 | One event per rune, each equal to the event defined from the index reached after that rune. Cancellation behaves as in the DTree scan. |
| Static.LongestPrefix | static.go:135-156 | Returns the longest non-empty prefix of `s` whose array walk reaches a node with an id, with that id, or ("", 0). |
| Layout.Flatten | static.go:19-52 | The layout has `CountAll(root)` slots, with the root at index 0. |
| Layout.LayoutRepresents | static.go:25-52 | Every slot of the layout holds the trie node its path spells. Its children range holds that node's children, in sibling order. |
| Layout.ChildFind | static.go:124-132 | In the frozen array, `find` over a slot's range misses exactly when the trie node has no child `c`, and otherwise returns that child's slot. |
| Layout.WalkMatches | static.go:135-150 | Following `find` from the root along `p` succeeds exactly when `p` is a node of the trie, and stops on the slot of `p`. |
| Layout.PathsDistinct | static.go:19-52 | No two slots of the layout hold the same node. |
| Layout.RangesApart | static.go:28-32 | The children ranges of two different slots never overlap. |
| Layout.ExampleFlatten | static.go:19-52 | The layout of the trie of "abcd", "bc", "cd" is the 9-slot array: the root, "a", "b", "c", then "ab", "abc", "abcd", "bc", "cd", with the children ranges `procNode` assigns. |
| Freeze.Freeze | static.go:19-60 | The frozen array has `CountAll(root)` nodes and `lastEdgeID` levels. |
| Freeze.Laid | static.go:19-56 | The array `Freeze` holds before `fillFailure`: one slot per node and one level per id. It agrees with the frozen array in everything except the `Fail` fields. |
| Freeze.ExampleIsLaidOut | static.go:19-56 | For the trie of "abcd", "bc", "cd", that array is exactly the 9-slot array on which Static.DepthFirstStaticLink runs the as-written fill. |
| Freeze.FreezeAcyclic | static.go:62-75 | In the frozen array, following `Fail` from any index reaches the root, and no node fails to itself. |
| Freeze.FreezeRanges | static.go:28-49 | Every children range is empty ([0, 0)) or lies strictly after its parent and inside the array. Every range is sorted, and distinct ranges are disjoint. |
| Freeze.FreezeRoot | static.go:52-57 | The root sits at index 0 with the root's label and id, and fails to itself (index 0). |
| Freeze.FrozenLevel | static.go:39-41 | `Levels[id-1]` of every key is its rune count. |
| Freeze.FrozenIdsAgree | static.go:19-60 | Every path has the same id in the frozen array as in the growable tree. |
| Freeze.FrozenWalk | static.go:135-150 | The array walk succeeds on exactly the paths of the growable tree, stops on the slot of the path, and reads the same id. |
| Freeze.NextAgrees | static.go:110-122 | The index step of the frozen array lands on the slot of the node the growable tree's step (with the corrected links) lands on. |
| Freeze.RunAgrees | static.go:84-105 | After any text, the frozen scan stands on the slot of the growable tree's scan state. |
| Freeze.ScanAgrees | static.go:84-108 | Frozen and growable scans emit the same index, rune and matches for every rune. The one exception: the frozen loop stops at the root, so a match of the empty key is dropped. |
| Freeze.LongestPrefixAgrees | static.go:135-156 | The frozen `LongestPrefix` gives the same prefix and id as the growable one. |
| Freeze.LongestKeyPrefixUnique | dynamic.go:197-216 | At most one (prefix, id) answer meets the longest-prefix contract. |
| Base.Wrap32 | io.go:54-57 | `rune(int64)` narrows in two's complement: the result fits in 32 bits, is congruent to the input modulo 2^32, and equals it when it already fits. |
| Codec.ZigZagRoundTrip | io.go:30-74 | The zigzag mapping of `PutVarint` is undone by `ReadVarint` for every int64. |
| Codec.Uvarint | io.go:34 | A `PutUvarint` encoding is at least one byte. Every byte except the last has its continuation bit set. |
| Codec.UvarintAtMostTen | io.go:18 | Every 64-bit value encodes in at most `MaxVarintLen64` = 10 bytes. |
| Codec.UvarintFrom | io.go:68 | A decoded value is non-negative and consumes at least one byte. EOF is reported only when no byte was available. |
| Codec.VarintRoundTrip | io.go:30-74 | `ReadVarint` of `PutVarint(v)` followed by any bytes gives back `v`, and leaves exactly the following bytes. |
| Codec.VarintTruncated | io.go:64-74 | Every proper prefix of an encoding fails: EOF when empty, otherwise unexpected EOF. |
| Codec.WriteInt64 | io.go:30-41 | After an error nothing is written. Otherwise the varint of `v` is appended, or the writer records a short write. |
| Codec.WriteRune | io.go:22-24 | A rune is written as the varint of its int64 widening. |
| Codec.WriteInt | io.go:26-28 | An int is written as the varint of its int64 widening. |
| Codec.WriteInts | static.go:179-181 | Writing a list of ints appends their varints one after another, stopping at the first failure. |
| Codec.ReadInt64 | io.go:64-74 | The error is sticky: once set, the result is 0 and the reader is unchanged. A failure yields 0, and a success consumes input and gives an int64. |
| Codec.ReadInt64RoundTrip | io.go:64-74 | Reading back a written int64 returns it and leaves the following bytes, with no error. |
| Codec.ReadInt64Truncated | io.go:64-74 | Reading a proper prefix of a written int64 gives 0 and records EOF or unexpected EOF. |
| Codec.IntOf | io.go:59-62 | `int(int64)` is the identity on 64-bit platforms and whenever the value fits; it wraps on 32-bit platforms. |
| Codec.ReadInt64sRoundTrip | static.go:221-224 | Reading as many ints as were written gives back the same list and leaves the following bytes. |
| Serial.WriteNode | static.go:244-254 | `SNode.write` appends the varints of label, start, end, fail and edge id, in that order. |
| Serial.WriteNodes | static.go:167-172 | The node loop appends every node's bytes in order, and stops at the first failure. |
| Serial.Write | static.go:159-188 | `STree.Write` appends the node count, the nodes, the level count and the levels. |
| Serial.ReadNode | static.go:256-266 | Reading a node after an error leaves the reader unchanged. |
| Serial.ReadNodeRoundTrip | static.go:256-266 | Reading back a written node gives the same node and leaves the following bytes. |
| Serial.ReadNodesRoundTrip | static.go:205-211 | Reading back the written node list gives the same nodes. |
| Serial.ReadCount | static.go:197-204 | An accepted count was read without error and fits the platform's int. A count too large for 32 bits is refused. |
| Serial.LevelsRoundTrip | static.go:213-227 | Reading back the written levels table gives the tree with the same levels. |
| Serial.RoundTrip | static.go:159-233 | `Read` of what `Write` produced, followed by any bytes, returns the same tree and leaves exactly those bytes. This holds for the corrected and the as-written reader, on 32- and 64-bit platforms. |
| Serial.TruncatedFails | static.go:193-233 | Every proper prefix of a written tree is refused with EOF or unexpected EOF, by both readers. |
| Serial.NegativeNodeCount | static.go:205 | A negative node count makes the as-written reader panic in `make`. The corrected reader reports a negative-length error instead. |
| Serial.NegativeCountPanics | static.go:205 | The one-byte stream 0x01 (varint -1) makes the as-written `Read` panic. |
| Serial.ReadNeverPanics | static.go:193-233 | Whatever the bytes, the corrected `Read` ends in a tree or an error. |
| Serial.TooLargeNodeCount | static.go:201-204 | On a 32-bit platform, a node count above MaxInt32 is refused as "too large tree". |
| Serial.TooLargeLevelCount | static.go:218-220 | On a 32-bit platform, a level count above MaxInt32 is refused as "too large levels". |
| Predict.CutAtBoundary | predict.go:123 | `query[:end]` at the byte offset of a rune boundary is exactly the first runes of the query. |
| Predict.TrailingStart | predict.go:86-98 | The start of the last n runes lies within the string. It is the string's end only when n <= 0 or the string is empty. |
| Predict.TrailingIndex | predict.go:86-98 | The loop of `trailingIndex` computes the byte offset at which the last n runes begin. |
| Predict.TrailingSplit | predict.go:86-98 | The offset of the last n runes plus their byte length is the string's byte length. |
| Predict.Next | predict.go:67-80 | `next` is valid exactly when runes remain. An invalid call returns (zero, 0, false) and leaves the traverser unchanged. A valid call consumes one rune and returns the new pivot and byte index. |
| Predict.NextAt | predict.go:67-80 | After k runes, a valid `next` returns the automaton state after k+1 runes and the byte length of those runes. |
| Predict.StartAt | predict.go:56-63 | `newTraverser` stands before the first rune: the whole query remains, the pivot is the state of the empty prefix (the root), and the byte index is 0. |
| Predict.ClosedStaysClosed | predict.go:82-84 | After `close`, every `next` reports invalid. |
| Predict.NeverDangles | predict.go:43-47 | When the zero node is a real node (the STree's index 0), the closure never ends a failure walk by asking `nodeId` of nil. |
| Predict.OutlookFrom | predict.go:108-133 | What the closure gives from rune k on is a prefix of the expected predictions of those runes, and all of them when it does not panic. |
| Predict.OutlookCalm | predict.go:120-130 | A closure that does not panic meets no rune whose failure walk goes from a node with an id to nil. |
| Predict.OutlookPanicPoint | predict.go:120-130 | A closure that panics does so right after the predictions of the first rune whose walk reaches nil: it gives everything up to that rune and nothing after. |
| Predict.OwedAt | predict.go:108-133 | Call i gives the i-th owed prediction, and after them a panic on every call if one is owed, or nil on every call if not. |
| Predict.PullStep | predict.go:108-133 | Each call of the closure returns the first prediction still owed and drops it. Once none is owed, it panics if the walk has reached `nodeId(nil)`, and otherwise returns nil forever. |
| Predict.Pull | predict.go:108-133 | One call of the closure. It yields only a prediction with a positive id. It panics only on a tree whose zero node is nil (the DTree), when that node is reached. It returns nil exactly when it asked for a rune and none was left, and the query is then used up. It never gives runes back. Which call gives what is stated by Predict.PullStep. |
| Predict.PredictIterYields | predict.go:100-134 | Any number of calls returns, in order, the query's predictions up to and including those of the first rune whose failure walk asks `nodeId(nil)`. After them every call panics if that rune exists, and returns nil if not. |
| Predict.PredictIterYieldsExpected | predict.go:100-134 | When no rune's walk reaches `nodeId(nil)` (always so for the STree), any number of calls returns the expected predictions in order, then nil. The expected list is every id on the failure chain of every rune, as a byte span. |
| Predict.DeliverMeaning | seq.go:28-37 | Without a refusal, yield receives every value. With one, the last value handed over is the refused one, and every earlier one was accepted. |
| Predict.PushChain | seq.go:28-37 | The inner loop of `predict` hands the chain's predictions to yield, and reports whether yield refused one. |
| Predict.PushRunes | seq.go:23-38 | Afterwards the shared traverser has no rune left: every rune was consumed, or yield refused and the traverser was closed. What yield receives is stated by Predict.PushRunesDelivers. |
| Predict.PushRunesDelivers | seq.go:23-38 | From a traverser that has consumed k runes, the outer loop of `predict` hands yield the expected predictions of the remaining runes, in order, stopping right after the first refusal. |
| Predict.PredictDelivers | seq.go:19-40 | Ranging over `predict` hands yield the expected predictions in order, stopping right after the first refusal. |
| Predict.SingleUse | seq.go:21-22 | The sequence shares one traverser: a second range over it yields nothing. |
| Predict.PullAndPushAgree | seq.go:19-40 | What the pull iterator returns before its first nil or panic is a prefix of what the push iterator delivers, and all of it when the pull does not panic. The call after the last one delivered is nil or the panic. |
| Adapters.DynamicTree | predict.go:37-41 | The DTree instance has the root as its start node and nil as its zero node, a node whose `nodeId` panics. |
| Adapters.DynamicWalkable | predict.go:37-41 | Following `nodeFail` from any DTree node reaches nil. |
| Adapters.DynamicDangles | predict.go:37-41 | On a DTree, the closure's walk from node p ends with `nodeId(nil)` exactly when p's failure chain ends at a node with an id. |
| Adapters.UnfilledDangles | predict.go:120-130 | Before `FillFailure` sets any link, the walk from p ends with `nodeId(nil)` exactly when p carries an id: the first match is followed by a panic. |
| Adapters.FilledChainEnd | dynamic.go:157-178 | With the failure links filled correctly, every failure chain ends at the root. |
| Adapters.FilledDangles | predict.go:120-130 | With the failure links filled correctly, a rune's walk ends with `nodeId(nil)` exactly when the empty key is present: the root then carries an id and its Failure is nil. |
| Adapters.DynamicMatches | predict.go:19-21 | For every rune, the DTree predictions are exactly the matches `ScanContext` reports, each as the byte span ending after the rune. |
| Adapters.StaticTree | predict.go:43-47 | The STree instance has index 0 as both its root and its zero node, and index 0 is a real node whose id can be read. |
| Adapters.StaticWalkable | predict.go:43-47 | Following `nodeFail` from any STree index reaches 0, when the array is acyclic and the root has no id. |
| Adapters.StaticMatches | predict.go:25-27 | For every rune, the STree predictions are exactly the matches its `ScanContext` reports, as byte spans. |
| Adapters.FrozenPredictsAlike | predict.go:19-27 | A frozen tree predicts exactly what the filled growable tree predicts, in the same order, for a tree without the empty key. |
| Report.ReportDynamic | trietree.go:29-41 | One report with the index, rune and viaRoot unchanged. The ids are those of the failure chain, in order, and nil when there are none or the node is nil. |
| Report.ReportStatic | trietree.go:43-56 | One report with the ids found while following `Fail` down to the root, in order, and nil when there are none. |
| Report.ReportedIdsEndHere | trietree.go:29-41 | After the corrected fill, the ids reported for rune j are exactly those of the keys ending there. The list is nil exactly when no key ends there. |
| Trie.New | trie/trie.go:23-26 | A new Trie is valid, and its growable view is the zero DTree. |
| Trie.NewFirstPut | trie/trie.go:38-46 | The first key put into a new Trie is accepted and gets id 1. |
| Trie.Put | trie/trie.go:38-46 | A frozen Trie refuses with `ErrFreezedAlready` and stays unchanged. Otherwise the growable tree is created if needed, and the key's id (existing or next) is returned. |
| Trie.FreezeAsWritten | trie/trie.go:70-77 | As written, `Freeze` panics exactly when the Trie holds neither tree, as `New()` leaves it. Otherwise it agrees with the corrected `Freeze`. |
| Trie.Freeze | trie/trie.go:70-77 | A second freeze refuses. The first replaces the growable tree by its acyclic frozen array, with one node per trie node and one level per id. |
| Trie.NewTrieFreezePanics | trie/trie.go:70-77 | `New().Freeze()` panics as written. |
| Trie.FreezeNewTrie | trie/trie.go:70-77 | The corrected `Freeze` of `New()` gives the one-node empty array. |
| Trie.FrozenIsFinal | trie/trie.go:38-77 | Once frozen, no sequence of `Put` and `Freeze` calls changes the Trie, and each call refuses. |
| Trie.FreezeIsFinal | trie/trie.go:38-77 | After a freeze, any later calls leave exactly the frozen array of the tree grown so far. |
| Trie.Scan | trie/trie.go:49-67 | Scans with whichever tree the Trie holds: one report per rune. Cancellation behaves as in the underlying scans. |
| Trie.UnfrozenScanExactOnly | trie/trie.go:63-66 | Before freezing, the growable tree has no failure links, so each event reports only the key spelled by the exact path reached. |
| Trie.FrozenScanReportsKeys | trie/trie.go:63-64 | After freezing, each event reports exactly the keys that end at that rune. |
| Trie.Marshal | trie/trie.go:80-85 | Writes the bytes of the frozen array: the one the Trie holds, or the one freezing would produce. |
| Trie.Unmarshal | trie/trie.go:29-35 | Fails exactly when `Read` fails, with its error. Otherwise it gives a frozen Trie holding the tree read. |
| Trie.MarshalRoundTrip | trie/trie.go:29-35 | Unmarshalling what `Marshal` wrote gives back the frozen Trie and the bytes after it. |
| Trie.UnmarshalEmptyFails | trie/trie.go:29-33 | An empty stream gives EOF and no Trie. |
| Trie2.NewDTrie | trie2/trie2.go:11-15 | The zero DTrie is valid and maps no key to a value. |
| Trie2.Put | trie2/trie2.go:23-31 | The key now maps to the new value, and every other key keeps its value. There is one value per id. |
| Trie2.PutLookup | trie2/trie2.go:23-31 | The append-or-overwrite body of `Put` gives the new value to the key and keeps every other key's value. |
| Trie2.FillFailure | trie2/trie2.go:18-20 | Filling the links leaves the values and every key's lookup unchanged. |
| Trie2.LongestPrefix | trie2/trie2.go:35-42 | Returns the value and prefix of the longest non-empty prefix of `s` that is a key, or not found when there is none. |
| Trie2.Freeze | trie2/trie2.go:55-65 | The STrie has the same values, one per level entry, and a searchable array. |
| Trie2.FreezeKeepsIds | trie2/trie2.go:55-65 | Every path has the same id in the frozen array, so every id indexes a value. |
| Trie2.SLongestPrefix | trie2/trie2.go:118-125 | Returns the value and prefix of the longest prefix whose array walk reaches an id, or not found. |
| Trie2.FrozenLongestPrefixAgrees | trie2/trie2.go:118-125 | The STrie frozen from a DTrie answers every longest-prefix query exactly as the DTrie does. |
| Trie2.Marshal | trie2/trie2.go:70-87 | If values and levels differ in number, nothing is written and the error says so. Otherwise the tree's bytes are written, then the encoded values, and the first failure is reported. |
| Trie2.Unmarshal | trie2/trie2.go:92-114 | A tree read error is reported as such. With an empty levels table the result has no values, and the bytes after the tree are left unread. |
| Trie2.EmptyLevelsSkipValues | trie2/trie2.go:97-99 | With no levels, the value decoder is never consulted. |
| Trie2.MarshalRoundTrip | trie2/trie2.go:70-114 | With a value codec that round-trips, `Unmarshal` of what `Marshal` wrote gives back the same STrie. |
| Trie2.WrapIsKey | trie2/predict.go:15-28 | Wrapping a prediction of a filled DTrie keeps its span. The key is the query's text in that span, it is a key of the trie, and the value is the one the trie stores for it. |
| Trie2.SpanCoversKey | trie2/predict.go:24 | The span of a match of key u ending at rune j slices exactly u out of the query. |
| Trie2.PredictionIsKey | trie2/predict.go:15-28 | Every prediction of a filled DTrie spans a key of the trie whose id is the prediction's id. The key's value is `values[ID-1]`. |
| Trie2.FilledOutlook | trie2/predict.go:15-32 | The core iterator of a filled DTrie panics exactly when the empty key is present and the query is not empty. It then gives the first rune's predictions before panicking, and otherwise gives all predictions, then nil. |
| Trie2.DTriePredictIter | trie2/predict.go:15-32 | Without the empty key, call i of `DTrie.PredictIter` returns the i-th prediction, wrapped with its key and value, and nil after the last. With the empty key, it returns the first rune's predictions, then panics on every call. |
| Trie2.FrozenPredictionsAgree | trie2/predict.go:30-36 | An STrie frozen from a filled DTrie without the empty key predicts the same spans and ids, so it yields the same key/value predictions. |

## Left out

- Freeze.Freeze: uses the intended failure indices: the slot of the longest proper suffix that is a node of the trie. `STree.fillFailure` (static.go:62-75) fills children depth-first with the same flaw as the growable tree's fill (see Findings). That as-written fill is modelled by Static.FillFrom on any laid-out array, and Static.DepthFirstStaticLink shows the flaw on the example. Freeze.Freeze and everything built on it keep the intended links.
- Trie.Freeze: the array it holds is Freeze.Freeze's, with the intended links. Go's `Freeze` fills them depth-first, so on the Findings example its "abcd" fails to the root.
- Trie.Marshal: writes the `Fail` indices of Freeze.Freeze. Go writes those of the depth-first fill, which differ on the Findings example.
- Trie.FrozenScanReportsKeys: holds for the intended links. With Go's depth-first links, scanning "abcd" in the Findings example misses "cd".
- Trie2.Freeze: the array it builds is Freeze.Freeze's, with the intended links, not those of Go's depth-first fill.
- Trie2.FillFailure: applies the corrected fill, Failure.FillFailure. trie2/trie2.go:18-20 calls the depth-first `DTree.FillFailure`, modelled as Dynamic.FillFailureAsWritten.
- Trie.Unmarshal: built on the corrected Serial.Read, which reports a negative count as an error. Go's `Read` panics in `make` on such a stream, e.g. the one byte 0x01 (Serial.NegativeCountPanics). It also panics in `make` on a count beyond the allocation limit, which the model does not have (see Serial.ReadCount).
- Trie2.Unmarshal: built on the corrected Serial.Read, like Trie.Unmarshal. Go panics on a negative count, e.g. the stream 0x01, and on a count beyond `make`'s allocation limit (see Serial.ReadCount).
- Serial.ReadCount: Go's `make` has an allocation limit, which is not modelled. A count that passes the checks of static.go:197-204 but asks for more memory than Go can allocate (2^48 bytes on most 64-bit platforms) makes `make` at static.go:205 or static.go:221 panic with "len out of range". The model has no such limit: it goes on reading the nodes and reports EOF when the stream ends.
- Static.NextNode, Static.CollectChain, Static.Scan: require an acyclic array (Static.Acyclic): every range inside the array, and `Fail` leading from every slot to the root. On an array read from arbitrary bytes, Go's loops never end when the `Fail` links form a cycle, and panic when a range or link is out of range. Acyclic also constrains slots no walk reaches, such as a second slot with a bad range in an array whose root has no children. Go would not look at those.
- Static.LongestPrefix: requires well-formed ranges (Static.Ranges) in every slot, reachable or not. Go panics only when the walk meets an out-of-range child range, and never looks at the others.
- Report.ReportDynamic, Report.ReportStatic: each report carries its own id list. Go builds it in one buffer reused for every report (`rw.idbuf[:0]`, trietree.go:30 and trietree.go:44). A Reporter that keeps the slice sees it overwritten by the next report. That aliasing is not modelled.
- Dynamic.Scan, Static.Scan, Trie.Scan: context cancellation is a parameter, `cancelAt`. `Some(k)` means `ctx.Err()` is non-nil at the first check after event k, or at the first check of all when k is 0. The clock and `context.Background` are not modelled.
- Dynamic.FillFailureAsWritten: its contract states only the shape of the result. The values of the as-written links are stated on the example, by Failure.DepthFirstExampleLink.
- Serial.ReadNode: its contract states only that errors are sticky. What it reads is stated by Serial.ReadNodeRoundTrip and Serial.ReadNodeTruncated.
- Codec.ReadRune and Codec.ReadInt carry no contract of their own. They are narrowing wrappers (Base.Wrap32 and Codec.IntOf) around Codec.ReadInt64, and are covered through Serial.ReadNode.
- Trie.Scan, Trie.Marshal: a Trie that was never given a key holds a nil `dy`. In the source these calls then dereference nil, as `Freeze` does (Findings row 3). The model reads the missing tree as the zero DTree.
- Trie.Scan: a frozen Trie must hold an acyclic array. An array read by `Unmarshal` from arbitrary bytes may have a `Fail` cycle, on which the source's scan never ends, or may index out of range.
- Trie.FrozenScanReportsKeys: requires that the empty string is not a key. The frozen scan never inspects the root (`n > 0`), so a match of the empty key is never reported by a frozen tree.
- Adapters.StaticTree: `nodeLevel` returns 0 for a node without an id, or outside the array, where Go's `Levels[id-1]` would panic. Such nodes are never asked, because the iterators read levels only of nodes with an id. Static.LevelOf keeps the source's -1 for an id beyond the levels table.
- Adapters.StaticWalkable: requires the root to have no id and to fail to itself. An STree whose root carries an id (the empty key) would make `predictIter` loop forever, since index 0 is also the zero node.
- Adapters.DynamicTree: `nil` is `None`. Go's `nodeId(nil)` dereferences nil. The pull iterator model reports that call as a panic (Predict.Dangles) and never reads a value for it. The push iterator never asks it. `nodeLevel(nil)` is never asked and reads as 0.
- Trie2.SLongestPrefix: requires every id in the array to index the values slice. On a mismatched STrie, which `Unmarshal` can produce with a custom decoder, the source would panic indexing `values`.
- Trie2.Unmarshal: its contract covers the tree-error and empty-levels cases. The decoding of values is stated by Trie2.MarshalRoundTrip.
- Trie2.PredictionIsKey, Trie2.DTriePredictIter: stated for a DTrie whose links were filled by the corrected fill. Without any fill, the core iterator panics right after the first match (Adapters.UnfilledDangles). That case is stated for the core iterator by Predict.PredictIterYields, not for the wrapper.
- Trie2.Freeze: `copyValues` chooses between a copy and a shared slice in Go. Sequences are values here, so aliasing is not modelled; both give the same values.
- `encoding/gob`, the default value codec of `trie2`, is not modelled. The value codec is a parameter, an encoder and a decoder.
- `bufio` buffering and `Flush` are not modelled. A writer failure is a `Writer` whose capacity (`room`) runs out, giving a short write.
- Serial.Write: reports a short write when the sink runs out. Go's `Write` ignores the error of `ww.w.Flush()` (static.go:186) and returns nil. So for a tree that fits the `bufio` buffer, a failing sink gives nil in Go.
- Trie2.Marshal: the tree part has the same gap as Serial.Write. A sink failure while the tree's bytes are flushed is not reported by Go.
- Serial.RoundTrip: "leaves exactly those bytes" is about the stream. Go's `Read` reads through a `bufio.Reader` of its own (io.go:48-52), which may take bytes past the tree from the caller's reader and then be dropped.
- Trie2.MarshalRoundTrip: the value decoder reads the bytes that follow the tree in the stream. In Go, `trietree.Read` may already have taken them from `r` into its own `bufio.Reader` (io.go:48-52). So with a plain reader the values may no longer be there for `gob` or `unmarshalValues`.
- Trie.MarshalRoundTrip: the bytes after the tree are returned as the stream's rest. Go's caller's reader may have lost some of them to the `bufio.Reader` of `Read`.
- Invalid UTF-8 is not modelled. Strings are sequences of Unicode scalar values, and byte offsets are computed with the UTF-8 length of each rune (section 3 of RFC 3629). `DecodeRuneInString`'s zero-size result therefore never occurs.
- `ScanReporter`, `ScanEvent` and `newScanReport` (defined outside the files modelled) are represented by the list of emitted events.
- `DTree.Scan` and `STree.Scan` are `ScanContext` with a context that is never cancelled, i.e. `cancelAt == None`.
- Go's fixed-width `int` is modelled explicitly only where the source converts between widths: `rune(n)`, `int(n)` and the 32-bit checks in `Read`. The id counter and levels are unbounded integers.

## Findings

| source | as written | input that shows it | evidently intended | confidence | as-written member | corrected member |
|---|---|---|---|---|---|---|
| dynamic.go:163-178 | `fillFailure` sets a child's link and then fills the child's whole subtree before the next sibling. So a deep node's link may be computed through a node whose own link is still nil, and is read as the root. | Put "abcd", "bc", "cd", then `FillFailure`. The link of "abcd" becomes the root instead of "cd": "bc" had no link yet. Scanning "abcd" then reports only "abcd" at the last rune, missing "cd". | Every link is the longest proper suffix of the node that is itself a node of the trie, as the Aho-Corasick construction requires. This can be done breadth-first. Every key ending at a rune is then reported. | high (not executed) | Failure.DepthFirstScanMissesKey | Failure.CorrectedScanFindsKey |
| static.go:205 | `Read` passes a node count decoded from the stream straight to `make([]SNode, int(n))`. A negative count panics instead of returning an error. The level count at static.go:221 is handled the same way. | The one-byte stream 0x01, the varint of -1. | A negative count is rejected with an error, as a too-large count already is. | high (not executed) | Serial.NegativeCountPanics | Serial.NegativeNodeCount |
| trie/trie.go:70-77 | `Freeze` passes `tr.dy` to `trietree.Freeze` without the nil check that `Put` performs. On a Trie from `New()` that never received a key, `src.Root` dereferences nil. | `New().Freeze()` | Freezing an empty Trie gives the empty frozen tree, as `Put` creates the tree lazily. | high (not executed) | Trie.NewTrieFreezePanics | Trie.FreezeNewTrie |
| static.go:62-75 | `STree.fillFailure` fills the frozen array in the same depth-first order. A child's `Fail` is computed from its parent's, and the child's subtree is filled before the next sibling. So a link may be computed through a slot whose own `Fail` is still 0, the root. | Freeze the trie of "abcd", "bc", "cd". "abc" fails to "bc" while the `Fail` of "bc" is still 0, so "abcd" fails to the root instead of to "cd". The scan event at the "d" of "abcd" then lists only "abcd", missing "cd". Freeze.ExampleIsLaidOut shows this is the array `Freeze` lays out. | Every `Fail` is the slot of the longest proper suffix of the node that is itself a node, as in the growable tree's corrected fill. Every key ending at a rune is then reported. | high (not executed) | Static.DepthFirstStaticLink | Trie.FrozenScanReportsKeys |
