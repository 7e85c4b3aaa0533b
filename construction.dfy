/**
 * The construction as values: what one extension (rule 2 or rule 3), one
 * phase and the whole run over the combined string do to the arena, the
 * cursor and `max_len`. The methods of `Ukkonen` are proved to compute
 * exactly these, and the lemmas here say what each step keeps.
 */
module Construction {
  import opened Outcomes
  import opened SuffixTree
  import opened ActivePoint

  /** What one step hands to the next: the arena, the cursor and `max_len`. */
  datatype State = State(nodes: seq<Node>, cursor: Point, maxLen: nat)

  /** The arena is well formed and the cursor strictly inside an edge (or at
      a node). */
  ghost predicate Ready(text: string, st: State)
  {
    WellFormed(text, st.nodes) && CursorOk(st.nodes, st.cursor)
  }

  /** `max_len` is the greatest string depth among the counted nodes. */
  ghost predicate Tracked(st: State)
  {
    MaxLenOk(st.nodes, st.maxLen)
  }

  /** `prev` is the dummy (`None`) or an internal node of the arena. */
  predicate PrevOk(nodes: seq<Node>, prev: Option<nat>)
  {
    prev.Some? ==> prev.value < |nodes| && nodes[prev.value].Internal?
  }

  // ------------------------------------------------------------------
  // The pieces of one extension

  /** `cursor.is_followed_by(letter)`. */
  function FollowedBy(text: string, nodes: seq<Node>, p: Point, letter: char): Result<bool>
    requires CursorOk(nodes, p)
  {
    if p.idx == 0 then Ok(letter in nodes[p.node].edges)
    else
      var k := ActiveEdge(nodes, p).start + p.idx;
      if k < |text| then Ok(text[k] == letter) else Err(IndexOutOfRange)
  }

  /** `prev.link = target`, where the dummy `prev` (`None`) is left alone. */
  function LinkPrev(nodes: seq<Node>, prev: Option<nat>, target: nat): seq<Node>
    requires PrevOk(nodes, prev)
  {
    if prev.Some? then Linked(nodes, prev.value, target) else nodes
  }

  /** Linking `prev` keeps the arena well formed, every node's edges, the
      leaf count and the tracked maximum, and gives `prev` its link. */
  lemma LinkPrevKeepsShape(text: string, nodes: seq<Node>, prev: Option<nat>, target: nat, maxLen: nat)
    requires WellFormed(text, nodes) && PrevOk(nodes, prev)
    requires target < |nodes| && nodes[target].Internal?
    ensures var r := LinkPrev(nodes, prev, target);
      && WellFormed(text, r) && Grows(nodes, r) && |r| == |nodes|
      && LeafCount(r) == LeafCount(nodes)
      && (forall m | 0 <= m < |r| && r[m].Internal? :: r[m].edges == nodes[m].edges)
      && (MaxLenOk(nodes, maxLen) ==> MaxLenOk(r, maxLen))
      && (prev.Some? ==> r[prev.value].link == Some(target))
  {
    if prev.Some? {
      LinkKeepsShape(text, nodes, prev.value, target);
      if MaxLenOk(nodes, maxLen) {
        MaxLenKept(nodes, Linked(nodes, prev.value, target), maxLen);
      }
    }
  }

  /** Rule 2 before the bookkeeping (lines 155-167): make the cursor's
      position an explicit node `stem`, hang from it a leaf of the current
      word on an open edge from `i`, and count `stem` when past the boundary
      both its leaf-origin flags are set and it is not yet counted. Returns the new
      state (the cursor does not move) and `stem`. */
  function InsertLeafStep(text: string, st: State, i: nat, fromFirstWord: bool, pastBoundary: bool): (State, nat)
    requires Ready(text, st) && i < |text|
    requires st.cursor.idx != 0 ==> ActiveEdge(st.nodes, st.cursor).start + st.cursor.idx < |text|
  {
    var p := st.cursor;
    SplitStemFacts(text, st.nodes, p);
    var split := if p.idx != 0 then SplitNodes(text, st.nodes, p) else st.nodes;
    var stem := if p.idx != 0 then |st.nodes| else p.node;
    var (nodes, maxLen) := HangLeaf(split, stem, text[i], i, fromFirstWord, pastBoundary, st.maxLen);
    (State(nodes, p, maxLen), stem)
  }

  /** The explicit node rule 2 hangs its leaf from: the cursor's node, or
      the middle node a split creates at the cursor's depth. */
  lemma SplitStemFacts(text: string, nodes: seq<Node>, p: Point)
    requires WellFormed(text, nodes) && CursorOk(nodes, p)
    requires p.idx != 0 ==> ActiveEdge(nodes, p).start + p.idx < |text|
    ensures var split := if p.idx != 0 then SplitNodes(text, nodes, p) else nodes;
      var stem := if p.idx != 0 then |nodes| else p.node;
      && WellFormed(text, split) && Grows(nodes, split) && CountedKept(nodes, split)
      && LeafCount(split) == LeafCount(nodes) && Anchored(split, p)
      && stem < |split| && split[stem].Internal? && split[stem].rootLength == Depth(nodes, p)
      && (stem < |nodes| ==> split[stem].counted == nodes[stem].counted)
  {
    if p.idx != 0 {
      SplitKeepsShape(text, nodes, p);
    }
  }

  /** `stem[letter] = Edge(LeafNode(from_first_word), i, inf)` followed by
      the counting test (lines 160-167): the new arena and `max_len`. */
  function HangLeaf(nodes: seq<Node>, stem: nat, letter: char, i: nat, fromFirstWord: bool,
                    pastBoundary: bool, maxLen: nat): (seq<Node>, nat)
    requires stem < |nodes| && nodes[stem].Internal?
  {
    var added := AddLeaf(nodes, stem, letter, i, fromFirstWord);
    if pastBoundary && !added[stem].counted && added[stem].hasS && added[stem].hasT then
      var depth := added[stem].rootLength;
      (MarkedCounted(added, stem), if depth > maxLen then depth else maxLen)
    else
      (added, maxLen)
  }

  /** The counting test of lines 163-167 on an arena where the stem has
      just gained a leaf: counting keeps the arena well formed and its
      leaves, and `max_len` stays the tracked maximum, changing only past
      the boundary to the depth of a stem not counted before. */
  lemma CountStemFacts(text: string, added: seq<Node>, stem: nat, pastBoundary: bool, maxLen: nat)
    requires WellFormed(text, added) && stem < |added| && added[stem].Internal? && MaxLenOk(added, maxLen)
    ensures var cond := pastBoundary && !added[stem].counted && added[stem].hasS && added[stem].hasT;
      var depth := added[stem].rootLength;
      var r := if cond then MarkedCounted(added, stem) else added;
      var m := if cond then (if depth > maxLen then depth else maxLen) else maxLen;
      && WellFormed(text, r) && Grows(added, r) && |r| == |added| && MaxLenOk(r, m) && maxLen <= m
      && LeafCount(r) == LeafCount(added)
      && r[stem].edges == added[stem].edges
      && (forall n | 0 <= n < |r| && n != stem :: r[n] == added[n])
      && (m != maxLen ==> pastBoundary && Counted(r[stem]) && m == r[stem].rootLength && !Counted(added[stem]))
  {
    if pastBoundary && !added[stem].counted && added[stem].hasS && added[stem].hasT {
      MarkKeepsShape(text, added, stem, maxLen);
    } else {
      assert Grows(added, added);
    }
  }

  /** Hanging the leaf keeps the arena well formed, adds exactly one leaf,
      under `letter` on an open edge from `i`, and keeps `max_len` the
      tracked maximum; `max_len` changes only past the boundary, to the depth
      of a stem not counted before. */
  lemma HangLeafFacts(text: string, nodes: seq<Node>, stem: nat, i: nat, fromFirstWord: bool,
                      pastBoundary: bool, maxLen: nat)
    requires WellFormed(text, nodes) && stem < |nodes| && nodes[stem].Internal? && i < |text|
    requires MaxLenOk(nodes, maxLen)
    ensures var (r, m) := HangLeaf(nodes, stem, text[i], i, fromFirstWord, pastBoundary, maxLen);
      && WellFormed(text, r) && Grows(nodes, r) && |r| == |nodes| + 1
      && MaxLenOk(r, m) && maxLen <= m
      && LeafCount(r) == LeafCount(nodes) + 1
      && text[i] in r[stem].edges && r[stem].edges[text[i]] == Edge(|nodes|, i, None)
      && r[|nodes|] == Leaf(fromFirstWord)
      && (m != maxLen ==> pastBoundary && Counted(r[stem]) && m == r[stem].rootLength && !Counted(nodes[stem]))
  {
    AddLeafKeepsShape(text, nodes, stem, text[i], i, fromFirstWord);
    var added := AddLeaf(nodes, stem, text[i], i, fromFirstWord);
    MaxLenKept(nodes, added, maxLen);
    assert NodeGrows(nodes[stem], added[stem]);
    CountStemFacts(text, added, stem, pastBoundary, maxLen);
    var (r, m) := HangLeaf(nodes, stem, text[i], i, fromFirstWord, pastBoundary, maxLen);
    GrowsTransitive(nodes, added, r);
    assert r[|nodes|] == added[|nodes|];
  }

  /** What rule 2 guarantees: the stem is the cursor's node when the cursor
      is at a node and otherwise the new middle node, in either case at the
      cursor's depth; a leaf of the current word hangs from it under the
      symbol read, on an open edge from `i`. The arena stays well formed,
      only grows and gains exactly one leaf; `max_len` stays the tracked
      maximum and changes only past the boundary, to the depth of a stem not
      counted before. */
  lemma InsertLeafFacts(text: string, st: State, i: nat, fromFirstWord: bool, pastBoundary: bool)
    requires Ready(text, st) && Tracked(st) && i < |text|
    requires st.cursor.idx != 0 ==> ActiveEdge(st.nodes, st.cursor).start + st.cursor.idx < |text|
    ensures var (after, stem) := InsertLeafStep(text, st, i, fromFirstWord, pastBoundary);
      && WellFormed(text, after.nodes) && Grows(st.nodes, after.nodes)
      && Tracked(after) && st.maxLen <= after.maxLen
      && LeafCount(after.nodes) == LeafCount(st.nodes) + 1
      && after.cursor == st.cursor && Anchored(after.nodes, st.cursor)
      && stem == (if st.cursor.idx == 0 then st.cursor.node else |st.nodes|)
      && stem < |after.nodes| && after.nodes[stem].Internal?
      && after.nodes[stem].rootLength == Depth(st.nodes, st.cursor)
      && text[i] in after.nodes[stem].edges
      && after.nodes[stem].edges[text[i]].start == i && after.nodes[stem].edges[text[i]].end.None?
      && after.nodes[stem].edges[text[i]].dest < |after.nodes|
      && after.nodes[after.nodes[stem].edges[text[i]].dest] == Leaf(fromFirstWord)
      && (after.maxLen != st.maxLen ==>
            && pastBoundary && Counted(after.nodes[stem])
            && after.maxLen == after.nodes[stem].rootLength
            && (stem < |st.nodes| ==> !Counted(st.nodes[stem])))
  {
    var p := st.cursor;
    SplitStemFacts(text, st.nodes, p);
    var split := if p.idx != 0 then SplitNodes(text, st.nodes, p) else st.nodes;
    var stem := if p.idx != 0 then |st.nodes| else p.node;
    MaxLenKept(st.nodes, split, st.maxLen);
    HangLeafFacts(text, split, stem, i, fromFirstWord, pastBoundary, st.maxLen);
    var (nodes, maxLen) := HangLeaf(split, stem, text[i], i, fromFirstWord, pastBoundary, st.maxLen);
    GrowsTransitive(st.nodes, split, nodes);
    assert NodeGrows(split[p.node], nodes[p.node]);
    assert NodeGrows(split[stem], nodes[stem]);
  }

  /** Rule 3 (lines 150-153): the symbol is already there, so `prev` is
      linked to the cursor's node and the cursor is deferred one symbol. */
  function ConfirmStep(text: string, st: State, prev: Option<nat>, i: nat): State
    requires Ready(text, st) && PrevOk(st.nodes, prev) && i < |text|
    requires st.cursor.idx == 0 ==> text[i] in st.nodes[st.cursor.node].edges
  {
    State(LinkPrev(st.nodes, prev, st.cursor.node), DeferredPoint(st.nodes, st.cursor, text[i]), st.maxLen)
  }

  /** After rule 3 the arena is well formed with the same leaves, `prev`
      links to the cursor's old node, `max_len` and `lag` are unchanged and
      the cursor is one symbol deeper, strictly inside an edge or at a
      node. */
  lemma ConfirmFacts(text: string, st: State, prev: Option<nat>, i: nat)
    requires Ready(text, st) && Tracked(st) && PrevOk(st.nodes, prev) && i < |text|
    requires st.cursor.idx == 0 ==> text[i] in st.nodes[st.cursor.node].edges
    ensures var r := ConfirmStep(text, st, prev, i);
      && Ready(text, r) && Tracked(r) && Grows(st.nodes, r.nodes)
      && LeafCount(r.nodes) == LeafCount(st.nodes)
      && r.maxLen == st.maxLen && r.cursor.lag == st.cursor.lag
      && Depth(r.nodes, r.cursor) == Depth(st.nodes, st.cursor) + 1
      && (prev.Some? ==> r.nodes[prev.value].link == Some(st.cursor.node))
  {
    var p := st.cursor;
    LinkPrevKeepsShape(text, st.nodes, prev, p.node, st.maxLen);
    DeferAdvances(text, st.nodes, p, text[i]);
    var r := ConfirmStep(text, st, prev, i);
    assert NodeGrows(st.nodes[r.cursor.node], r.nodes[r.cursor.node]);
  }

  /** Rule 2 with its bookkeeping (lines 155-171): insert the leaf, link
      `prev` to the stem, and let `post_insert` move the cursor on; a fault
      is the exception `post_insert` would raise. Returns the new state and
      the stem, which becomes the next `prev`. */
  function ExtendStep(text: string, st: State, prev: Option<nat>, i: nat, fromFirstWord: bool, pastBoundary: bool)
    : Result<(State, nat)>
    requires Ready(text, st) && Tracked(st) && PrevOk(st.nodes, prev) && i < |text| && 0 <= st.cursor.lag <= i
    requires st.cursor.idx != 0 ==> ActiveEdge(st.nodes, st.cursor).start + st.cursor.idx < |text|
  {
    InsertLeafFacts(text, st, i, fromFirstWord, pastBoundary);
    var (after, stem) := InsertLeafStep(text, st, i, fromFirstWord, pastBoundary);
    assert prev.Some? ==> NodeGrows(st.nodes[prev.value], after.nodes[prev.value]);
    LinkPrevKeepsShape(text, after.nodes, prev, stem, after.maxLen);
    var linked := LinkPrev(after.nodes, prev, stem);
    assert NodeGrows(after.nodes[st.cursor.node], linked[st.cursor.node]);
    match PostInsertPoint(text, linked, st.cursor, i)
    case Err(f) => Err(f)
    case Ok(q) => Ok((State(linked, q, after.maxLen), stem))
  }

  /** After a successful rule 2 the arena is well formed and gained one
      leaf, `prev` links to the stem, `lag` dropped by one with the cursor
      strictly inside an edge or at a node, and `max_len` is still the
      tracked maximum, grown only past the boundary. */
  lemma ExtendFacts(text: string, st: State, prev: Option<nat>, i: nat, fromFirstWord: bool, pastBoundary: bool)
    requires Ready(text, st) && Tracked(st) && PrevOk(st.nodes, prev) && i < |text| && 0 <= st.cursor.lag <= i
    requires st.cursor.idx != 0 ==> ActiveEdge(st.nodes, st.cursor).start + st.cursor.idx < |text|
    ensures var r := ExtendStep(text, st, prev, i, fromFirstWord, pastBoundary);
      r.Ok? ==>
        var (next, stem) := r.value;
        && Ready(text, next) && Tracked(next) && Grows(st.nodes, next.nodes)
        && st.maxLen <= next.maxLen && (next.maxLen != st.maxLen ==> pastBoundary)
        && LeafCount(next.nodes) == LeafCount(st.nodes) + 1
        && next.cursor.lag == st.cursor.lag - 1
        && stem < |next.nodes| && next.nodes[stem].Internal?
        && (prev.Some? ==> next.nodes[prev.value].link == Some(stem))
  {
    InsertLeafFacts(text, st, i, fromFirstWord, pastBoundary);
    var (after, stem) := InsertLeafStep(text, st, i, fromFirstWord, pastBoundary);
    assert prev.Some? ==> NodeGrows(st.nodes[prev.value], after.nodes[prev.value]);
    LinkPrevKeepsShape(text, after.nodes, prev, stem, after.maxLen);
    var linked := LinkPrev(after.nodes, prev, stem);
    assert NodeGrows(after.nodes[st.cursor.node], linked[st.cursor.node]);
    assert NodeGrows(after.nodes[stem], linked[stem]);
    PostInsertLands(text, linked, st.cursor, i);
    GrowsTransitive(st.nodes, after.nodes, linked);
  }

  // ------------------------------------------------------------------
  // One phase and the whole run

  /** The extension loop of one phase (lines 148-171), from a state whose
      `lag` already counts the new suffix: stop when no suffix is pending;
      otherwise a symbol already present ends the phase by rule 3, and an
      absent one gets a leaf by rule 2 and the loop goes on with the stem as
      `prev`. The flag says whether rule 3 ended the phase. */
  function PhaseLoop(text: string, st: State, prev: Option<nat>, i: nat, fromFirstWord: bool, pastBoundary: bool)
    : (r: Result<(State, bool)>)
    requires Ready(text, st) && Tracked(st) && PrevOk(st.nodes, prev) && i < |text|
    requires st.cursor.lag >= -1 && LeafCount(st.nodes) + st.cursor.lag == i
    ensures r.Ok? ==>
      var (fin, confirmed) := r.value;
      && Ready(text, fin) && Tracked(fin)
      && st.maxLen <= fin.maxLen && (fin.maxLen != st.maxLen ==> pastBoundary)
      && fin.cursor.lag >= -1 && LeafCount(fin.nodes) + fin.cursor.lag == i
      && (confirmed <==> fin.cursor.lag >= 0)
    decreases st.cursor.lag + 1
  {
    if st.cursor.lag < 0 then Ok((st, false))
    else
      match FollowedBy(text, st.nodes, st.cursor, text[i])
      case Err(f) => Err(f)
      case Ok(found) =>
        if found then
          ConfirmFacts(text, st, prev, i);
          Ok((ConfirmStep(text, st, prev, i), true))
        else
          ExtendFacts(text, st, prev, i, fromFirstWord, pastBoundary);
          match ExtendStep(text, st, prev, i, fromFirstWord, pastBoundary)
          case Err(f) => Err(f)
          case Ok(res) => PhaseLoop(text, res.0, Some(res.1), i, fromFirstWord, pastBoundary)
  }

  /** Over a whole extension loop no node is removed and no flag is
      cleared: each rule keeps what the last one left. */
  lemma {:induction false} PhaseLoopGrows(text: string, st: State, prev: Option<nat>, i: nat, fromFirstWord: bool, pastBoundary: bool)
    requires Looping(text, st, prev, i)
    ensures var r := PhaseLoop(text, st, prev, i, fromFirstWord, pastBoundary);
      r.Ok? ==> Grows(st.nodes, r.value.0.nodes)
    decreases st.cursor.lag + 1
  {
    if st.cursor.lag >= 0 {
      match FollowedBy(text, st.nodes, st.cursor, text[i])
      case Err(_) =>
      case Ok(found) =>
        if found {
          ConfirmFacts(text, st, prev, i);
        } else {
          LoopExtends(text, st, prev, i, fromFirstWord, pastBoundary);
          ExtendFacts(text, st, prev, i, fromFirstWord, pastBoundary);
          match ExtendStep(text, st, prev, i, fromFirstWord, pastBoundary)
          case Err(_) =>
          case Ok(res) =>
            PhaseLoopGrows(text, res.0, Some(res.1), i, fromFirstWord, pastBoundary);
            var r := PhaseLoop(text, res.0, Some(res.1), i, fromFirstWord, pastBoundary);
            if r.Ok? {
              GrowsTransitive(st.nodes, res.0.nodes, r.value.0.nodes);
            }
        }
    }
  }

  /** What the extension loop of phase `i` keeps: a sound arena and cursor,
      `max_len` accounted for, a usable `prev`, and leaves plus `lag`
      numbering `i` (so leaves plus pending suffixes number `i + 1`). */
  ghost predicate Looping(text: string, st: State, prev: Option<nat>, i: nat)
  {
    && Ready(text, st) && Tracked(st) && PrevOk(st.nodes, prev) && i < |text|
    && st.cursor.lag >= -1 && LeafCount(st.nodes) + st.cursor.lag == i
  }

  /** The loop stops once nothing is pending. */
  lemma LoopEnds(text: string, st: State, prev: Option<nat>, i: nat, fromFirstWord: bool, pastBoundary: bool)
    requires Looping(text, st, prev, i) && st.cursor.lag < 0
    ensures PhaseLoop(text, st, prev, i, fromFirstWord, pastBoundary) == Ok((st, false))
  {
  }

  /** A fault while looking for the symbol ends the loop in that fault. */
  lemma LoopFaults(text: string, st: State, prev: Option<nat>, i: nat, fromFirstWord: bool, pastBoundary: bool)
    requires Looping(text, st, prev, i) && st.cursor.lag >= 0
    requires FollowedBy(text, st.nodes, st.cursor, text[i]).Err?
    ensures PhaseLoop(text, st, prev, i, fromFirstWord, pastBoundary) == Err(FollowedBy(text, st.nodes, st.cursor, text[i]).fault)
  {
  }

  /** Rule 3 ends the loop in the confirmed state. */
  lemma LoopConfirms(text: string, st: State, prev: Option<nat>, i: nat, fromFirstWord: bool, pastBoundary: bool)
    requires Looping(text, st, prev, i) && st.cursor.lag >= 0
    requires FollowedBy(text, st.nodes, st.cursor, text[i]) == Ok(true)
    ensures st.cursor.idx == 0 ==> text[i] in st.nodes[st.cursor.node].edges
    ensures PhaseLoop(text, st, prev, i, fromFirstWord, pastBoundary) == Ok((ConfirmStep(text, st, prev, i), true))
  {
  }

  /** Rule 2 hands the loop on to the state after the extension, with the
      new stem as `prev`, or ends it in the fault `post_insert` raised. */
  lemma LoopExtends(text: string, st: State, prev: Option<nat>, i: nat, fromFirstWord: bool, pastBoundary: bool)
    requires Looping(text, st, prev, i) && st.cursor.lag >= 0
    requires FollowedBy(text, st.nodes, st.cursor, text[i]) == Ok(false)
    ensures st.cursor.idx != 0 ==> ActiveEdge(st.nodes, st.cursor).start + st.cursor.idx < |text|
    ensures match ExtendStep(text, st, prev, i, fromFirstWord, pastBoundary)
      case Ok(res) =>
        && Looping(text, res.0, Some(res.1), i) && st.maxLen <= res.0.maxLen
        && res.0.cursor.lag < st.cursor.lag
        && PhaseLoop(text, res.0, Some(res.1), i, fromFirstWord, pastBoundary)
           == PhaseLoop(text, st, prev, i, fromFirstWord, pastBoundary)
      case Err(f) => PhaseLoop(text, st, prev, i, fromFirstWord, pastBoundary) == Err(f)
  {
    ExtendFacts(text, st, prev, i, fromFirstWord, pastBoundary);
  }

  /** Phase `i` (lines 142-171): one more suffix is pending, `prev` is the
      dummy, and the extension loop runs. */
  function PhaseStep(text: string, st: State, i: nat, fromFirstWord: bool, pastBoundary: bool)
    : Result<(State, bool)>
    requires Ready(text, st) && Tracked(st) && i < |text|
    requires st.cursor.lag >= -1 && LeafCount(st.nodes) + st.cursor.lag + 1 == i
  {
    PhaseLoop(text, st.(cursor := st.cursor.(lag := st.cursor.lag + 1)), None, i, fromFirstWord, pastBoundary)
  }

  /** Phase `i` is its extension loop started with one more suffix pending
      and no `prev`. */
  lemma PhaseStarts(text: string, st: State, i: nat, fromFirstWord: bool, pastBoundary: bool)
    requires Ready(text, st) && Tracked(st) && i < |text|
    requires st.cursor.lag >= -1 && LeafCount(st.nodes) + st.cursor.lag + 1 == i
    ensures var start := st.(cursor := st.cursor.(lag := st.cursor.lag + 1));
      && Looping(text, start, None, i)
      && PhaseStep(text, st, i, fromFirstWord, pastBoundary) == PhaseLoop(text, start, None, i, fromFirstWord, pastBoundary)
  {
  }

  /** The state before the first phase: the root alone, the cursor at it
      with nothing pending, `max_len` 0. */
  function Start(): State
  {
    State([FreshInternal(0)], Point(Root, None, 0, -1), 0)
  }

  /** The first `n` phases over `text`, whose first word has length
      `lenS`: phase `i` inserts leaves of the first word while `i <= lenS`
      (up to and including the '#') and may count nodes only once
      `i > lenS`. */
  function Run(text: string, lenS: nat, n: nat): (r: Result<State>)
    requires n <= |text|
    ensures r.Ok? ==>
      && Ready(text, r.value) && Tracked(r.value)
      && r.value.cursor.lag >= -1 && LeafCount(r.value.nodes) + r.value.cursor.lag + 1 == n
    ensures r.Ok? && n <= lenS + 1 ==> r.value.maxLen == 0
  {
    if n == 0 then
      assert LeafCount(Start().nodes) == LeafCount([]) + 0;
      assert NodeOk(text, Start().nodes, Root);
      Ok(Start())
    else
      match Run(text, lenS, n - 1)
      case Err(f) => Err(f)
      case Ok(st) =>
        match PhaseStep(text, st, n - 1, n - 1 <= lenS, n - 1 > lenS)
        case Err(f) => Err(f)
        case Ok(res) => Ok(res.0)
  }

  /** `Run` one phase further, stated on its own so that callers need not
      unfold `Run`; `next` is `n + 1`. */
  lemma RunNext(text: string, lenS: nat, n: nat, next: nat)
    requires next == n + 1 <= |text| && Run(text, lenS, n).Ok?
    ensures Run(text, lenS, next) ==
      match PhaseStep(text, Run(text, lenS, n).value, n, n <= lenS, n > lenS)
      case Err(f) => Err(f)
      case Ok(res) => Ok(res.0)
  {
  }

  /** After `n` phases without a fault, the state is `st`. */
  ghost predicate Reached(text: string, lenS: nat, n: nat, st: State)
    requires n <= |text|
  {
    Run(text, lenS, n) == Ok(st)
  }

  /** A phase that succeeds after a successful run of `n` phases continues
      the run with the state the phase leaves. */
  lemma RunContinues(text: string, lenS: nat, n: nat, next: nat, fromFirstWord: bool, st: State, after: State)
    requires next == n + 1 <= |text| && Reached(text, lenS, n, st) && fromFirstWord == (n <= lenS)
    requires match PhaseStep(text, st, n, fromFirstWord, n > lenS)
      case Ok(res) => after == res.0
      case Err(_) => false
    ensures Reached(text, lenS, next, after)
  {
    RunNext(text, lenS, n, next);
  }

  /** A phase that faults after a successful run of `n` phases ends the
      whole run in that fault. */
  lemma RunStops(text: string, lenS: nat, n: nat, fromFirstWord: bool, st: State, fault: Fault)
    requires n < |text| && Reached(text, lenS, n, st) && fromFirstWord == (n <= lenS)
    requires PhaseStep(text, st, n, fromFirstWord, n > lenS) == Err(fault)
    ensures Run(text, lenS, |text|) == Err(fault)
  {
    var next := n + 1;
    RunNext(text, lenS, n, next);
    assert Run(text, lenS, next) == Err(fault);
    RunFaultSticks(text, lenS, next, |text|);
  }

  /** A successful run got there through successful runs; from one phase
      to the next `max_len` never decreases, no node is removed and no flag
      is cleared. */
  lemma RunGrows(text: string, lenS: nat, n: nat)
    requires 0 < n <= |text| && Run(text, lenS, n).Ok?
    ensures Run(text, lenS, n - 1).Ok? && Run(text, lenS, n - 1).value.maxLen <= Run(text, lenS, n).value.maxLen
    ensures Grows(Run(text, lenS, n - 1).value.nodes, Run(text, lenS, n).value.nodes)
  {
    var st := Run(text, lenS, n - 1).value;
    var prev := n - 1;
    PhaseStarts(text, st, prev, prev <= lenS, prev > lenS);
    PhaseLoopGrows(text, st.(cursor := st.cursor.(lag := st.cursor.lag + 1)), None, prev, prev <= lenS, prev > lenS);
  }

  /** A fault is passed on unchanged by the next phase; `next` is `n + 1`. */
  lemma RunFaultNext(text: string, lenS: nat, n: nat, next: nat)
    requires next == n + 1 <= |text| && Run(text, lenS, n).Err?
    ensures Run(text, lenS, next) == Run(text, lenS, n)
  {
  }

  /** A fault ends the run: every longer run ends in the same fault. */
  lemma {:induction false} RunFaultSticks(text: string, lenS: nat, n: nat, m: nat)
    requires n <= m <= |text| && Run(text, lenS, n).Err?
    ensures Run(text, lenS, m) == Run(text, lenS, n)
    decreases m - n
  {
    if n < m {
      var prev := m - 1;
      RunFaultSticks(text, lenS, n, prev);
      RunFaultNext(text, lenS, prev, m);
    }
  }

  /** `longestCommonSubstring(s, t)` as a value: every phase over
      `s + '#' + t + '$'`, yielding `max_len` or the fault raised. */
  function Build(s: string, t: string): Result<nat>
  {
    match Run(Combine(s, t), |s|, |Combine(s, t)|)
    case Ok(st) => Ok(st.maxLen)
    case Err(f) => Err(f)
  }

  /** On success, the run leaves a well-formed arena over the combined
      string whose counted nodes all have both leaf-origin flags set; the
      result is 0 or the greatest depth among them; leaves plus pending
      suffixes number one per position of the text; and the result is 0
      whenever no node could be counted before the second word. */
  lemma BuildFacts(s: string, t: string)
    ensures Build(s, t).Ok? ==>
      var st := Run(Combine(s, t), |s|, |Combine(s, t)|).value;
      && Build(s, t).value == st.maxLen
      && WellFormed(Combine(s, t), st.nodes) && MaxLenOk(st.nodes, st.maxLen)
      && st.cursor.lag + 1 >= 0 && LeafCount(st.nodes) + st.cursor.lag + 1 == |Combine(s, t)|
  {
  }
}
