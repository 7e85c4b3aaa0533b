# Suffix trees: Ukkonen's longest common substring and a naive suffix dictionary

This project models, in Dafny, two small suffix-tree programs.

- `longestCommonSubstring(s, t)` (`Ukkonen_algo.py`) builds the generalised
  suffix tree of `s + '#' + t + '$'` online with Ukkonen's algorithm. While it
  builds, it remembers the greatest string depth of an internal node found to
  have leaves from both words. That maximum, `max_len`, is the length of the
  longest common substring.
- `construct_suffix_tree(x)` (`main.py`) inserts every suffix `x[i:] + "$"`,
  shortest-index first, into a flat dictionary. Keys that share a prefix with
  the new suffix are replaced by that prefix, mapped to the two remainders.

Modules, one per concern:

- `Outcomes` (`outcomes.dfy`): `Option` and `Result`. `Fault` stands for the
  exceptions the source can raise: `MissingEdge` is the `KeyError` of a
  missing edge and `IndexOutOfRange` is the `IndexError` of reading past the
  text.
- `SuffixTree` (`suffix_tree.dfy`): the node store. Nodes live in an arena,
  `seq<Node>`, and node 0 is the root. A leaf records which word it came from.
  An internal node holds:
  - its edges, keyed by first symbol;
  - an optional suffix link;
  - `rootLength`, its string depth;
  - the `has_s_leaves`, `has_t_leaves` and `already_counted` flags.

  An edge names a slice of the text. An open end (`None`) is the infinite
  end of a leaf edge. `WellFormed` is the shape every step keeps:
  - an edge's key is the first symbol of its label;
  - open edges lead to leaves;
  - closed edges are non-empty, lie in the text and lead to internal nodes
    whose string depth adds the edge's length;
  - links lead to internal nodes;
  - only nodes whose two leaf-origin flags (`has_s_leaves`, `has_t_leaves`)
    are set are counted.

  The module also defines the single-node updates (`__setitem__`, the new
  leaf, the suffix link, the counted mark) as functions, with lemmas saying
  what each keeps.
- `ActivePoint` (`active_point.dfy`): the cursor as a value (`Point`). It also
  gives the functions `defer`, `split_edge` and `post_insert` compute, and what
  each guarantees.
- `Construction` (`construction.dfy`): the phase loop as values. A `State` is
  the arena, the cursor and `max_len`.
  - `InsertLeafStep` is rule 2 and `ConfirmStep` is rule 3.
  - `ExtendStep` is rule 2 followed by the suffix link and `post_insert`.
  - `PhaseLoop` is the extension loop of one phase, and `PhaseStep` is a
    whole phase.
  - `Run(text, lenS, n)` is the first `n` phases, and `Build(s, t)` is the
    whole computation.
  - Lemmas beside each function state what it keeps.
- `Ukkonen` (`ukkonen.dfy`): the objects the source updates in place.
  - The class `Tree` is the arena and the class `Cursor` is the cursor.
  - Each method of the two classes states its new state exactly. Most give it
    as a function of `SuffixTree` or `ActivePoint`, such as `Install`,
    `DeferredPoint` or `SplitNodes`. `IsFollowedBy` is proved equal to
    `Construction.FollowedBy`. `NewInternal`, `NewLeaf` and `ReplaceEdge`
    give the new arena as an explicit append or update of one entry.
  - The phase loop is split into methods: `InsertLeaf` (rule 2), `Confirm`
    (rule 3), `Extend`, `Extension` (one pass of the loop) and `Phase`.
    Each is proved to leave the arena, cursor and `max_len` that the matching
    `Construction` function computes, or to return the fault it names.
  - `LongestCommonSubstring` runs the phases and is proved to return
    `Build(s, t)`.
- `NaiveSuffixTree` (`naive.dfy`) models `main.py`.
  - A Python dictionary keeps insertion order, and `insert_suffix` walks a
    snapshot of its keys in that order. So the dictionary is a `Table` of the
    key order plus the key-value map, and `Dict` is the mutable object around
    it.
  - `Insert` is what `insert_suffix` does, as a function. `InsertSuffix` is
    the in-place loop, proved to produce `Insert`.
  - `Constructed(x, n)` is the dictionary after the first `n` suffixes.

Notes on the source:

- The docstring assumes that '#' and '$' occur in neither word, but the code
  never checks this (Ukkonen_algo.py:7-8, 11-12). So `LongestCommonSubstring`
  has no error path and no precondition on its words.
  `SuffixTree.CombineLayout` states what holds for separator-free words.
- A missing edge raises `KeyError`, and reading past the text raises
  `IndexError`. The model returns these as `Err(fault)`.
- A node whose suffix link is unset sends `post_insert` to the root
  (Ukkonen_algo.py:108). This is the `LinkTarget` fallback, not a fault.

## Model

| member | source | states |
|---|---|---|
| SuffixTree.CombineLayout | Ukkonen_algo.py:11-12 | The combined string has length `|s|+|t|+2`. With separator-free words, '#' is exactly at index `|s|` (the boundary) and '$' exactly at the last index. Every other index holds the symbol of its own word. |
| SuffixTree.LeafHasOneOrigin | Ukkonen_algo.py:16-27 | A leaf has leaves from exactly one word: `has_t_leaves` is the negation of `has_s_leaves`, which is `from_first_word`. |
| SuffixTree.InstallOrsFlags | Ukkonen_algo.py:42-47 | `node[key] = edge` stores the edge and keeps the link. The node's two flags become their OR with the child's flags, so they only turn on. No counted mark changes and every other node is untouched. |
| SuffixTree.AddLeafKeepsShape | Ukkonen_algo.py:160 | Hanging `LeafNode(from_first_word)` from `stem` on an open edge starting at `i`: the arena stays well formed and only grows, and it gains exactly one leaf, of that origin, under `letter`. The stem's flag for that word turns on and no node becomes counted. |
| SuffixTree.LinkKeepsShape | Ukkonen_algo.py:151 | Setting a suffix link to an internal node keeps the arena well formed. It keeps every node's edges, the leaf count and the counted marks. |
| SuffixTree.MaxLenKept | Ukkonen_algo.py:163-167 | A step that counts no new node keeps `max_len` correct: it is still at least every counted node's depth, and is 0 or the depth of a counted node. |
| SuffixTree.MarkKeepsShape | Ukkonen_algo.py:163-167 | Counting a node whose two leaf-origin flags are set keeps the arena well formed and leaves the node counted. The larger of the old `max_len` and the node's `root_length` is again the correct maximum. |
| ActivePoint.DeferAdvances | Ukkonen_algo.py:75-88 | After `defer` the cursor is one symbol deeper and `lag` is unchanged. Either it is one further along the same edge and still strictly inside it (having taken `letter` as edge key at a node), or it stands at the edge's destination with `idx == 0`. It never rests at the end of an edge. |
| ActivePoint.SplitKeepsShape | Ukkonen_algo.py:123-134 | After `split_edge`, the middle node's `root_length` is the cursor's depth. The cut edge has length `idx` and leads to the middle node. The middle node has one edge, to the old destination from `edge.start + idx`, and has that destination's flags. The arena stays well formed, keeps its leaves and counts no node; only the cursor's node changes. |
| ActivePoint.SplitKeepsLabel | Ukkonen_algo.py:127-133 | The two edges after a split spell, one after the other, exactly what the cut edge spelled, and the first has length `idx`. |
| ActivePoint.CanonicalLands | Ukkonen_algo.py:113-121 | When the descent loop of `post_insert` succeeds, the cursor is strictly inside an edge or at a node. It is at the same string depth, no further along its edge, with `lag` unchanged. |
| ActivePoint.PostInsertLands | Ukkonen_algo.py:90-121 | When `post_insert` succeeds, `lag` is one less and the cursor is strictly inside an edge or at a node. Its depth is the link target's `root_length` (the root when there is no link) plus the offset kept, which is one less at the root. From the root without a link the depth drops by one, floored at 0. |
| Ukkonen.Tree.constructor | Ukkonen_algo.py:60 | A new arena holds only the root, `InternalNode(0)`, and is well formed. |
| Ukkonen.Tree.Get | Ukkonen_algo.py:39-40 | `node[key]` returns an edge whose label starts with `key` inside the text, and which is open exactly when it leads to a leaf. |
| Ukkonen.Tree.NewInternal | Ukkonen_algo.py:31-37 | `InternalNode(root_length)` is a new node with no edges, no link and no flags, numbered after all existing nodes. |
| Ukkonen.Tree.NewLeaf | Ukkonen_algo.py:18-19 | `LeafNode(from_first_word)` is a new leaf numbered after all existing nodes. |
| Ukkonen.Tree.SetItem | Ukkonen_algo.py:42-47 | The in-place `__setitem__` produces `Install`: the edge is stored and the flags are OR'd (see `InstallOrsFlags`). |
| Ukkonen.Tree.ReplaceEdge | Ukkonen_algo.py:131-133 | Re-pointing an edge object changes that dictionary entry only, not the node's flags. |
| Ukkonen.Tree.SetLink | Ukkonen_algo.py:151 | `node.link = target` changes that one node's link. |
| Ukkonen.Tree.MarkCounted | Ukkonen_algo.py:165 | `already_counted = True` on that one node. |
| Ukkonen.Cursor.constructor | Ukkonen_algo.py:64-68 | The cursor starts at the root, on no edge, `idx` 0, `lag` -1. |
| Ukkonen.Tree.Contains | Ukkonen_algo.py:49-50 | `key in node` holds exactly when the node has an edge keyed `key`. In a well-formed arena that edge leads to a node of the arena, and its label starts with `key` inside the text. |
| Ukkonen.Cursor.IsFollowedBy | Ukkonen_algo.py:70-73 | The answer is `Construction.FollowedBy` of the cursor. At a node: whether an edge is keyed `letter`. Part-way along an edge: whether the text symbol at `edge.start + idx` is `letter`, with an index fault exactly when that position is past the text. |
| Ukkonen.Cursor.Defer | Ukkonen_algo.py:75-88 | The cursor becomes `DeferredPoint` of its old position (see `DeferAdvances`). |
| Ukkonen.Cursor.SplitEdge | Ukkonen_algo.py:123-134 | The arena becomes `SplitNodes` of the old arena at the cursor, and the returned node is the new middle node (see `SplitKeepsShape`). |
| Ukkonen.Cursor.PostInsert | Ukkonen_algo.py:90-121 | The cursor becomes `PostInsertPoint` of its old position, or the fault the source would raise is returned (see `PostInsertLands`). |
| Ukkonen.Cursor.Descend | Ukkonen_algo.py:113-121 | The descent loop leaves the cursor at `CanonicalPoint` of where it started, or returns the lookup or index fault (see `CanonicalLands`). |
| Construction.LinkPrevKeepsShape | Ukkonen_algo.py:170 | `prev.link = target` (also line 151) keeps the arena well formed, with the same nodes, edges and leaves and the same tracked maximum. `prev` now links to `target`, and the dummy (`None`) changes nothing. |
| Construction.SplitStemFacts | Ukkonen_algo.py:155-158 | The stem of rule 2 is the cursor's node when `idx` is 0, and otherwise the new middle node of the split. Either way it is internal, at the cursor's depth, and keeps its counted mark. The arena stays well formed with the same leaves, and the cursor still points into it. |
| Construction.CountStemFacts | Ukkonen_algo.py:163-167 | The counting test changes only the stem, keeps the arena well formed with the same leaves, and leaves `max_len` the tracked maximum. `max_len` changes only past the boundary, to the depth of a stem that was not counted before and now is. |
| Construction.HangLeafFacts | Ukkonen_algo.py:160-167 | After `stem[letter] = Edge(LeafNode(from_first_word), i, inf)` and the counting test: the arena is well formed and has one more node, a leaf of that word. The stem's edge under `letter` is `Edge(new leaf, i, None)`. The leaf count rises by one and `max_len` is again the tracked maximum. |
| Construction.InsertLeafFacts | Ukkonen_algo.py:155-167 | Rule 2 leaves the cursor where it was. The stem is the cursor's node when `idx` is 0 and otherwise the node numbered after all old ones; it is at the cursor's depth. A leaf of the current word hangs from it under the symbol read, on an open edge from `i`. The arena stays well formed, only grows and gains exactly one leaf. `max_len` stays the tracked maximum, never decreases, and changes only past the boundary, to the depth of a stem not counted before. |
| Construction.ConfirmFacts | Ukkonen_algo.py:150-153 | After rule 3 the arena is well formed with the same leaves and `prev` links to the cursor's old node. `max_len` and `lag` are unchanged, and the cursor is one symbol deeper, strictly inside an edge or at a node. |
| Construction.ExtendFacts | Ukkonen_algo.py:155-171 | On success, rule 2 plus its bookkeeping adds exactly one leaf, keeps the arena well formed and `max_len` the tracked maximum, and lowers `lag` by one. `prev` now links to the stem, which is internal. |
| Construction.PhaseLoop | Ukkonen_algo.py:148-171 | On success the extension loop leaves a well-formed arena, a usable cursor and the tracked maximum. `max_len` never decreases and changes only past the boundary. Leaves plus `lag` still equal the phase index `i`, so leaves plus pending suffixes number `i + 1`. The loop ended by rule 3 exactly when a suffix is still pending. |
| Construction.PhaseLoopGrows | Ukkonen_algo.py:148-171 | Over a whole successful extension loop no node is removed, no internal node becomes a leaf or changes depth, and no flag is cleared. |
| Construction.LoopEnds | Ukkonen_algo.py:148 | Equation of `PhaseLoop`, used by `Phase`: with no suffix pending the loop stops and leaves the state as it is. |
| Construction.LoopFaults | Ukkonen_algo.py:150 | Equation of `PhaseLoop`, used by `Extension`: a fault while looking for the symbol is the loop's result. |
| Construction.LoopConfirms | Ukkonen_algo.py:150-153 | Equation of `PhaseLoop`, used by `Extension`: when the symbol is already present, the loop ends in the state after rule 3. |
| Construction.LoopExtends | Ukkonen_algo.py:155-171 | When the symbol is absent, the loop goes on from the state after rule 2, with the stem as `prev` and one suffix fewer pending, and gives what it would have given before. A fault from `post_insert` is the loop's result. |
| Construction.PhaseStarts | Ukkonen_algo.py:145-146 | Equation of `PhaseStep`, used by `Phase`: a phase is its extension loop started with one more suffix pending and the dummy as `prev`. |
| Construction.Run | Ukkonen_algo.py:140-171 | After `n` phases without a fault the arena is well formed over the text and `max_len` is the tracked maximum. Leaves plus pending suffixes number `n`. `max_len` is 0 while no phase has passed the boundary. |
| Construction.RunGrows | Ukkonen_algo.py:140-171 | A successful run of `n` phases extends a successful run of `n - 1`. From one phase to the next `max_len` never decreases, no node is removed and no flag is cleared. |
| Construction.RunContinues | Ukkonen_algo.py:140-171 | Equation of `Run`, used by `LongestCommonSubstring`: a phase that succeeds continues the run with the state it leaves. |
| Construction.RunStops | Ukkonen_algo.py:140-171 | A phase that faults ends the whole run in that fault. |
| Construction.RunFaultSticks | Ukkonen_algo.py:140-171 | Once a phase faults, every longer run ends in the same fault. |
| Construction.BuildFacts | Ukkonen_algo.py:4-173 | On success the result is the `max_len` of the last state. The arena is well formed over `s + '#' + t + '$'`. The result is 0 or the greatest `root_length` among counted nodes, each of which has both leaf-origin flags set. Leaves plus pending suffixes number exactly the length of the text. |
| Ukkonen.InsertLeaf | Ukkonen_algo.py:155-167 | Rule 2 in place: the arena, the unmoved cursor, the new `max_len` and the returned stem are exactly those of `InsertLeafStep` (see `InsertLeafFacts`). |
| Ukkonen.Confirm | Ukkonen_algo.py:150-153 | Rule 3 in place: the arena becomes the old one with `prev` linked to the cursor's node, and the cursor becomes `DeferredPoint` of its old position (see `ConfirmFacts`). |
| Ukkonen.Extend | Ukkonen_algo.py:155-171 | Rule 2 with its link and `post_insert`, in place. The arena, cursor, `max_len` and stem are those of `ExtendStep`, or the fault it names is returned (see `ExtendFacts`). |
| Ukkonen.Extension | Ukkonen_algo.py:150-171 | One pass of the loop is one step of `PhaseLoop`. A fault is the loop's fault. After a confirmation (the symbol was found, `FollowedBy` is `Ok(true)`) the state is exactly `ConfirmStep` of the old one, which is the loop's result. Otherwise `FollowedBy` was `Ok(false)` and the state and stem are exactly those of `ExtendStep`; the loop from there, with the stem as `prev`, gives what it gave from the old state, with fewer suffixes pending. |
| Ukkonen.Phase | Ukkonen_algo.py:145-171 | A phase in place. The arena, cursor and `max_len` afterwards are those of `PhaseStep`, or the fault it names is returned. |
| Ukkonen.LongestCommonSubstring | Ukkonen_algo.py:4-173 | The result is `Build(s, t)`: the `max_len` after every phase over `s + '#' + t + '$'`, or the fault a phase raised (see `BuildFacts` for what `max_len` is). |
| NaiveSuffixTree.SuffixesShape | main.py:4-5 | `get_suffixes(x)` has `|x|+1` elements, and element `i` is `x[i:]` followed by '$'. The last one is "$" alone, and no two are equal. |
| NaiveSuffixTree.SharedPrefix | main.py:8-9 | The shared prefix is a prefix of both strings, and the strings differ right after it (or one ends there). |
| NaiveSuffixTree.SharedPrefixLongest | main.py:8-9 | Every common prefix of the two strings is a prefix of the shared prefix, so it is the longest one. |
| NaiveSuffixTree.Put | main.py:22 | `d[k] = v` gives the map updated at `k`. A new key goes to the end of the order, and the order still lists each key once. |
| NaiveSuffixTree.Remove | main.py:33 | `del d[k]` removes `k` from the map and from the order. |
| NaiveSuffixTree.MergeFound | main.py:25-30 | `found_match` ends true exactly when some key of the snapshot shares a non-empty prefix with the string. |
| NaiveSuffixTree.MergeSound | main.py:26-34 | After the loop, every entry is either an old entry that was not deleted, with its old value, or a shared prefix `p` of the string and some key `k`, mapped to `[k[len(p):], string[len(p):]]`. |
| NaiveSuffixTree.MergeComplete | main.py:26-34 | After the loop, every matching key's shared prefix is a key, and no non-empty prefix of the string that was a key is lost. |
| NaiveSuffixTree.MergeKeeps | main.py:26-34 | An entry that is neither deleted nor a prefix of the string keeps its value. |
| NaiveSuffixTree.MergeNoMatch | main.py:26-34 | When no key matches, the loop leaves the dictionary exactly as it was, order included. |
| NaiveSuffixTree.InsertSources | main.py:20-38 | After `insert_suffix` every entry is one of three kinds: an untouched key sharing nothing with the string, a merged shared prefix, or `string ↦ []` when nothing matched. |
| NaiveSuffixTree.InsertMatches | main.py:25-34 | After `insert_suffix` every matching key's shared prefix is present, and the matching key itself is gone unless it is a prefix of the string. |
| NaiveSuffixTree.InsertUntouched | main.py:25-34 | Keys sharing nothing with the string keep their values. |
| NaiveSuffixTree.InsertFacts | main.py:20-38 | The three facts above together. |
| NaiveSuffixTree.InsertNoMatch | main.py:20-23 | An empty dictionary becomes exactly `{string: []}`. When nothing matches, the only change is the added `string ↦ []`. |
| NaiveSuffixTree.MatchedHead | main.py:8-9 | A key sharing a non-empty prefix with the string starts with the string's first symbol. |
| NaiveSuffixTree.InsertMatchesOne | main.py:25-30 | When the keys are non-empty with distinct first symbols, at most one key shares a non-empty prefix with the string. |
| NaiveSuffixTree.InsertHeadsDiffer | main.py:20-38 | Inserting a non-empty string keeps the keys non-empty with distinct first symbols, and every key is old or a prefix of the string. |
| NaiveSuffixTree.InsertKeepsHeads | main.py:20-38 | Inserting a non-empty string into a dictionary whose keys are non-empty with distinct first symbols matches at most one key. Afterwards the keys are again non-empty with distinct first symbols, and each is old or a prefix of the string. |
| NaiveSuffixTree.ConstructedShaped | main.py:12-17 | While `construct_suffix_tree` inserts the suffixes in increasing `i` into `{}`, every key is a non-empty prefix of an inserted suffix. No two keys start with the same symbol, so each insertion merges at most one key. |
| NaiveSuffixTree.Dict.constructor | main.py:13 | `{}`: no keys. |
| NaiveSuffixTree.Dict.SetItem | main.py:22 | The in-place `d[k] = v` produces `Put`. |
| NaiveSuffixTree.Dict.DelItem | main.py:33 | The in-place `del d[k]` produces `Remove`. |
| NaiveSuffixTree.InsertSuffix | main.py:20-38 | The dictionary is mutated in place into `Insert` of its old value, and that same dictionary is returned. |
| NaiveSuffixTree.ConstructSuffixTree | main.py:12-17 | The result is `Constructed(x, len(x)+1)`: the suffixes inserted in increasing `i` into an empty dictionary. |

## Left out

- Ukkonen.LongestCommonSubstring: the result is proved equal to `Build(s, t)`, whose `max_len` is proved to be the tracked maximum over counted nodes (`BuildFacts`), not the length of the longest common substring of `s` and `t`. That would need full correctness of the suffix tree (every suffix spelled by a root-to-leaf path, suffix links pointing to the node for the suffix one shorter), which is not modelled. For the same reason the model does not show that empty words give 0.
- Ukkonen.LongestCommonSubstring: the missing-edge and index faults are returned as `Err`, not proved unreachable. The source would raise the matching Python exception on them.
- Ukkonen.Cursor.PostInsert: the suffix-link target is not proved to be the node for the next shorter suffix, only to be an internal node.
- The amortised linear bound on the number of steps is not modelled.
- The interactive parts are not modelled: the banners, reading the two words or the string from the terminal, and printing the result (Ukkonen_algo.py:173-184, main.py:41-46). `LongestCommonSubstring` returns `max_len` instead.
- The floating-point infinity used as the end of a leaf edge is not modelled. It is the `None` end of an open edge, and every length comparison against it is false.
- Python object identity is not modelled. Nodes are numbered in an arena, the root is node 0, and the dummy `prev` node of each phase is `None`. Setting the dummy's link is therefore not modelled: nothing ever reads it.
- `os.path.commonprefix` itself is not modelled. `SharedPrefix` specifies the longest common prefix of two strings directly.
