/**
 * `longestCommonSubstring`: Ukkonen's online construction of the suffix tree
 * of `s + '#' + t + '$'`, tracking the deepest node whose two leaf-origin
 * flags are set. The node arena (`Tree`) and the cursor (`Cursor`) are objects
 * updated in place, as in the source; each method states its new state
 * exactly, mostly as the value of a function of `SuffixTree`, `ActivePoint`
 * or `Construction`.
 */
module Ukkonen {
  import opened Outcomes
  import opened SuffixTree
  import opened ActivePoint
  import opened Construction

  /** The arena of `LeafNode`s and `InternalNode`s over one combined string. */
  class Tree {
    const text: string
    var nodes: seq<Node>

    ghost predicate Valid()
      reads this
    {
      WellFormed(text, nodes)
    }

    /** A tree holding only its root, `InternalNode(0)`. */
    constructor (text: string)
      ensures this.text == text && nodes == [FreshInternal(0)] && Valid()
    {
      this.text := text;
      nodes := [FreshInternal(0)];
    }

    /** `key in node` (`InternalNode.__contains__`). */
    function Contains(n: nat, key: char): (r: bool)
      reads this
      requires n < |nodes| && nodes[n].Internal?
      ensures r <==> key in nodes[n].edges
      ensures r && Valid() ==>
        var e := nodes[n].edges[key];
        e.dest < |nodes| && e.start < |text| && text[e.start] == key
    {
      assert key in nodes[n].edges && Valid() ==> NodeOk(text, nodes, n);
      key in nodes[n].edges
    }

    /** `node[key]` (`InternalNode.__getitem__`): the edge stored under
        `key`, whose label begins with `key` and which is open exactly when
        it leads to a leaf. */
    function Get(n: nat, key: char): (e: Edge)
      reads this
      requires Valid() && n < |nodes| && nodes[n].Internal? && key in nodes[n].edges
      ensures e.dest < |nodes| && e.start < |text| && text[e.start] == key
      ensures e.end.None? <==> nodes[e.dest].Leaf?
    {
      assert NodeOk(text, nodes, n);
      nodes[n].edges[key]
    }

    /** `InternalNode(root_length)`, appended to the arena. */
    method NewInternal(rootLength: nat) returns (id: nat)
      modifies this
      ensures nodes == old(nodes) + [FreshInternal(rootLength)] && id == |old(nodes)|
    {
      id := |nodes|;
      nodes := nodes + [FreshInternal(rootLength)];
    }

    /** `LeafNode(from_first_word)`, appended to the arena. */
    method NewLeaf(fromFirstWord: bool) returns (id: nat)
      modifies this
      ensures nodes == old(nodes) + [Leaf(fromFirstWord)] && id == |old(nodes)|
    {
      id := |nodes|;
      nodes := nodes + [Leaf(fromFirstWord)];
    }

    /** `node[key] = e` (`InternalNode.__setitem__`). */
    method SetItem(n: nat, key: char, e: Edge)
      requires n < |nodes| && nodes[n].Internal? && e.dest < |nodes|
      modifies this
      ensures nodes == Install(old(nodes), n, key, e)
    {
      var u := nodes[n];
      var child := nodes[e.dest];
      nodes := nodes[n := u.(edges := u.edges[key := e],
                             hasS := u.hasS || HasSLeaves(child),
                             hasT := u.hasT || HasTLeaves(child))];
    }

    /** Overwriting the `dest`, `end` and `length` fields of an existing
        edge object: the dictionary entry changes, the node's flags do not. */
    method ReplaceEdge(n: nat, key: char, e: Edge)
      requires n < |nodes| && nodes[n].Internal?
      modifies this
      ensures nodes == old(nodes)[n := old(nodes)[n].(edges := old(nodes)[n].edges[key := e])]
    {
      var u := nodes[n];
      nodes := nodes[n := u.(edges := u.edges[key := e])];
    }

    /** `node.link = target`. */
    method SetLink(n: nat, target: nat)
      requires n < |nodes| && nodes[n].Internal?
      modifies this
      ensures nodes == Linked(old(nodes), n, target)
    {
      nodes := nodes[n := nodes[n].(link := Some(target))];
    }

    /** `node.already_counted = True`. */
    method MarkCounted(n: nat)
      requires n < |nodes| && nodes[n].Internal?
      modifies this
      ensures nodes == MarkedCounted(old(nodes), n)
    {
      nodes := nodes[n := nodes[n].(counted := true)];
    }
  }

  /** The active point: `node`, `edge`, `idx` and `lag`. */
  class Cursor {
    var node: nat
    var edge: Option<char>
    var idx: int
    var lag: int

    /** At the root, on no edge, nothing pending (`lag == -1`). */
    constructor ()
      ensures At() == Point(Root, None, 0, -1)
    {
      node, edge, idx, lag := Root, None, 0, -1;
    }

    function At(): Point
      reads this
    {
      Point(node, edge, idx, lag)
    }

    /** `is_followed_by(letter)`: at a node, whether it has an edge keyed
        `letter`; part-way along an edge, whether the label's next symbol is
        `letter`, reading that symbol being an index fault past the text. */
    method IsFollowedBy(tree: Tree, letter: char) returns (r: Result<bool>)
      requires tree.Valid() && CursorOk(tree.nodes, At())
      ensures r == FollowedBy(tree.text, tree.nodes, At(), letter)
      ensures idx == 0 ==> r == Ok(letter in tree.nodes[node].edges)
      ensures idx != 0 ==>
        var k := ActiveEdge(tree.nodes, At()).start + idx;
        && (r.Ok? <==> k < |tree.text|)
        && (r.Ok? ==> (r.value <==> tree.text[k] == letter))
    {
      if idx == 0 {
        return Ok(tree.Contains(node, letter));
      }
      var k := tree.Get(node, edge.value).start + idx;
      if k >= |tree.text| {
        return Err(IndexOutOfRange);
      }
      return Ok(letter == tree.text[k]);
    }

    /** `defer(letter)`. */
    method Defer(tree: Tree, letter: char)
      requires tree.Valid() && CursorOk(tree.nodes, At())
      requires idx == 0 ==> letter in tree.nodes[node].edges
      modifies this
      ensures At() == DeferredPoint(tree.nodes, old(At()), letter)
    {
      idx := idx + 1;
      if edge.None? {
        edge := Some(letter);
      }
      var e := tree.Get(node, edge.value);
      if e.end.Some? && idx == e.end.value - e.start {
        node := e.dest;
        edge := None;
        idx := 0;
      }
    }

    /** `split_edge()`: returns the number of the new middle node. */
    method SplitEdge(tree: Tree) returns (middle: nat)
      requires tree.Valid() && CursorOk(tree.nodes, At()) && idx > 0
      requires ActiveEdge(tree.nodes, At()).start + idx < |tree.text|
      modifies tree
      ensures tree.nodes == SplitNodes(tree.text, old(tree.nodes), At())
      ensures middle == |old(tree.nodes)|
    {
      var e := tree.Get(node, edge.value);
      middle := tree.NewInternal(tree.nodes[node].rootLength + idx);
      var midpoint := e.start + idx;
      tree.SetItem(middle, tree.text[midpoint], Edge(e.dest, midpoint, e.end));
      tree.ReplaceEdge(node, edge.value, Edge(middle, e.start, Some(midpoint)));
    }

    /** `post_insert(i)`; a fault is the lookup or index error the source
        would raise. */
    method PostInsert(tree: Tree, i: nat) returns (fault: Option<Fault>)
      requires tree.Valid() && Anchored(tree.nodes, At()) && i < |tree.text| && 0 <= lag <= i
      modifies this
      ensures match PostInsertPoint(tree.text, tree.nodes, old(At()), i)
        case Ok(q) => fault == None && At() == q
        case Err(f) => fault == Some(f)
    {
      assert NodeOk(tree.text, tree.nodes, node);
      lag := lag - 1;
      if node == Root {
        if idx > 1 {
          if i - lag >= |tree.text| {
            return Some(IndexOutOfRange);
          }
          edge := Some(tree.text[i - lag]);
          idx := idx - 1;
        } else {
          idx := 0;
          edge := None;
        }
      }
      node := match tree.nodes[node].link
        case Some(target) => target
        case None => Root;
      assert PostInsertPoint(tree.text, tree.nodes, old(At()), i) == CanonicalPoint(tree.text, tree.nodes, At(), i);
      fault := Descend(tree, i);
    }

    /** The descent loop at the end of `post_insert`: while the cursor is at
        or past the end of its edge, move down that edge. */
    method Descend(tree: Tree, i: nat) returns (fault: Option<Fault>)
      requires tree.Valid() && Anchored(tree.nodes, At()) && lag <= i
      modifies this
      ensures match CanonicalPoint(tree.text, tree.nodes, old(At()), i)
        case Ok(q) => fault == None && At() == q
        case Err(f) => fault == Some(f)
    {
      ghost var start := At();
      while true
        invariant Anchored(tree.nodes, At()) && lag == start.lag
        invariant CanonicalPoint(tree.text, tree.nodes, At(), i) == CanonicalPoint(tree.text, tree.nodes, start, i)
        decreases idx
      {
        if edge.None? {
          return None;
        }
        if !tree.Contains(node, edge.value) {
          return Some(MissingEdge);
        }
        var e := tree.Get(node, edge.value);
        if !(e.end.Some? && idx >= e.end.value - e.start) {
          return None;
        }
        assert NodeOk(tree.text, tree.nodes, node);
        assert EdgeOk(tree.text, tree.nodes, tree.nodes[node].rootLength, edge.value, e);
        node := e.dest;
        if idx == e.end.value - e.start {
          idx := 0;
          edge := None;
        } else {
          idx := idx - (e.end.value - e.start);
          var k := i - lag + tree.nodes[node].rootLength;
          if k >= |tree.text| {
            return Some(IndexOutOfRange);
          }
          edge := Some(tree.text[k]);
        }
      }
    }
  }

  /** Rule 2 of one extension (lines 155-167): make the cursor's position an
      explicit node `stem`, splitting its edge when it is part-way along one,
      hang a new leaf of the current word from it on an open edge starting at
      `i`, and, once past the first word, count `stem` the first time both
      its leaf-origin flags are set. The cursor does not move; the arena, `stem` and
      `max_len` are those of `InsertLeafStep` (see `InsertLeafFacts`). */
  method InsertLeaf(tree: Tree, cursor: Cursor, i: nat, fromFirstWord: bool, pastBoundary: bool, maxLen: nat)
    returns (stem: nat, newMaxLen: nat)
    requires tree.Valid() && CursorOk(tree.nodes, cursor.At()) && i < |tree.text|
    requires cursor.idx != 0 ==> ActiveEdge(tree.nodes, cursor.At()).start + cursor.idx < |tree.text|
    modifies tree
    ensures (State(tree.nodes, cursor.At(), newMaxLen), stem)
      == InsertLeafStep(tree.text, State(old(tree.nodes), cursor.At(), maxLen), i, fromFirstWord, pastBoundary)
  {
    SplitStemFacts(tree.text, tree.nodes, cursor.At());
    if cursor.idx != 0 {
      stem := cursor.SplitEdge(tree);
    } else {
      stem := cursor.node;
    }
    ghost var split := tree.nodes;
    var leaf := tree.NewLeaf(fromFirstWord);
    tree.SetItem(stem, tree.text[i], Edge(leaf, i, None));
    assert tree.nodes == AddLeaf(split, stem, tree.text[i], i, fromFirstWord);
    newMaxLen := maxLen;
    if pastBoundary && !tree.nodes[stem].counted && tree.nodes[stem].hasS && tree.nodes[stem].hasT {
      tree.MarkCounted(stem);
      if tree.nodes[stem].rootLength > newMaxLen {
        newMaxLen := tree.nodes[stem].rootLength;
      }
    }
  }

  /** Rule 3 of one extension (lines 150-153): the symbol is already present
      after the cursor, so the node touched by the previous extension of this
      phase (if any) gets its suffix link to the cursor's node, and the cursor
      moves one symbol on (see `ConfirmFacts`). */
  method Confirm(tree: Tree, cursor: Cursor, prev: Option<nat>, i: nat)
    requires tree.Valid() && CursorOk(tree.nodes, cursor.At()) && PrevOk(tree.nodes, prev) && i < |tree.text|
    requires cursor.idx == 0 ==> tree.text[i] in tree.nodes[cursor.node].edges
    modifies tree, cursor
    ensures tree.nodes == LinkPrev(old(tree.nodes), prev, old(cursor.node))
    ensures cursor.At() == DeferredPoint(old(tree.nodes), old(cursor.At()), tree.text[i])
  {
    LinkPrevKeepsShape(tree.text, tree.nodes, prev, cursor.node, 0);
    if prev.Some? {
      tree.SetLink(prev.value, cursor.node);
    }
    assert tree.nodes[cursor.node].edges == old(tree.nodes)[cursor.node].edges;
    cursor.Defer(tree, tree.text[i]);
  }

  /** Rule 2 followed by its bookkeeping (lines 155-171): insert the leaf,
      link the node touched by the previous extension of this phase (if
      any) to `stem`, and let `post_insert` move the cursor to the next
      pending suffix. The new state and `stem` are those of `ExtendStep`, or
      the fault it names is returned (see `ExtendFacts`). */
  method Extend(tree: Tree, cursor: Cursor, prev: Option<nat>, i: nat,
                fromFirstWord: bool, pastBoundary: bool, maxLen: nat)
    returns (stem: nat, newMaxLen: nat, fault: Option<Fault>)
    requires tree.Valid() && CursorOk(tree.nodes, cursor.At()) && MaxLenOk(tree.nodes, maxLen)
    requires PrevOk(tree.nodes, prev) && i < |tree.text| && 0 <= cursor.lag <= i
    requires cursor.idx != 0 ==> ActiveEdge(tree.nodes, cursor.At()).start + cursor.idx < |tree.text|
    modifies tree, cursor
    ensures match ExtendStep(tree.text, State(old(tree.nodes), old(cursor.At()), maxLen), prev, i, fromFirstWord, pastBoundary)
      case Ok(res) => fault == None && State(tree.nodes, cursor.At(), newMaxLen) == res.0 && stem == res.1
      case Err(f) => fault == Some(f)
  {
    ghost var st := State(tree.nodes, cursor.At(), maxLen);
    InsertLeafFacts(tree.text, st, i, fromFirstWord, pastBoundary);
    stem, newMaxLen := InsertLeaf(tree, cursor, i, fromFirstWord, pastBoundary, maxLen);
    ghost var inserted := tree.nodes;
    assert prev.Some? ==> NodeGrows(st.nodes[prev.value], inserted[prev.value]);
    LinkPrevKeepsShape(tree.text, tree.nodes, prev, stem, newMaxLen);
    if prev.Some? {
      tree.SetLink(prev.value, stem);
    }
    assert tree.nodes == LinkPrev(inserted, prev, stem);
    assert NodeGrows(inserted[cursor.node], tree.nodes[cursor.node]);
    fault := cursor.PostInsert(tree, i);
  }

  /** One pass of the extension loop (lines 148-171): look for the phase's
      symbol after the cursor; if it is there apply rule 3 and report the
      phase over (`confirmed`), otherwise apply rule 2 and hand on the stem
      as the next `prev`. The pass is one step of `PhaseLoop`: a fault is
      the loop's fault, a confirmation is the loop's result, and otherwise
      the loop from the new state gives what it gave from the old one. The
      new state is exactly that of `ConfirmStep` after a confirmation and
      that of `ExtendStep` after rule 2. */
  method Extension(tree: Tree, cursor: Cursor, prev: Option<nat>, i: nat,
                   fromFirstWord: bool, pastBoundary: bool, maxLen: nat)
    returns (confirmed: bool, stem: nat, newMaxLen: nat, fault: Option<Fault>)
    requires Looping(tree.text, State(tree.nodes, cursor.At(), maxLen), prev, i) && cursor.lag >= 0
    modifies tree, cursor
    ensures var loop := PhaseLoop(tree.text, State(old(tree.nodes), old(cursor.At()), maxLen), prev, i, fromFirstWord, pastBoundary);
      if fault.Some? then loop == Err(fault.value)
      else if confirmed then loop == Ok((State(tree.nodes, cursor.At(), newMaxLen), true))
      else
        && Looping(tree.text, State(tree.nodes, cursor.At(), newMaxLen), Some(stem), i)
        && cursor.lag < old(cursor.lag)
        && PhaseLoop(tree.text, State(tree.nodes, cursor.At(), newMaxLen), Some(stem), i, fromFirstWord, pastBoundary) == loop
    ensures fault.None? && confirmed ==>
      && FollowedBy(tree.text, old(tree.nodes), old(cursor.At()), tree.text[i]) == Ok(true)
      && State(tree.nodes, cursor.At(), newMaxLen) == ConfirmStep(tree.text, State(old(tree.nodes), old(cursor.At()), maxLen), prev, i)
    ensures fault.None? && !confirmed ==>
      && FollowedBy(tree.text, old(tree.nodes), old(cursor.At()), tree.text[i]) == Ok(false)
      && ExtendStep(tree.text, State(old(tree.nodes), old(cursor.At()), maxLen), prev, i, fromFirstWord, pastBoundary)
         == Ok((State(tree.nodes, cursor.At(), newMaxLen), stem))
  {
    ghost var cur := State(tree.nodes, cursor.At(), maxLen);
    newMaxLen := maxLen;
    stem := 0;
    var followed := cursor.IsFollowedBy(tree, tree.text[i]);
    if followed.Err? {
      LoopFaults(tree.text, cur, prev, i, fromFirstWord, pastBoundary);
      return false, stem, newMaxLen, Some(followed.fault);
    }
    if followed.value {
      LoopConfirms(tree.text, cur, prev, i, fromFirstWord, pastBoundary);
      Confirm(tree, cursor, prev, i);
      assert State(tree.nodes, cursor.At(), newMaxLen) == ConfirmStep(tree.text, cur, prev, i);
      return true, stem, newMaxLen, None;
    }
    LoopExtends(tree.text, cur, prev, i, fromFirstWord, pastBoundary);
    stem, newMaxLen, fault := Extend(tree, cursor, prev, i, fromFirstWord, pastBoundary, maxLen);
    confirmed := false;
  }

  /** One phase (lines 142-171): the symbol at `i` becomes visible, one more
      suffix is pending, and extensions run until the symbol is found already
      present (rule 3, then `break`) or no suffix is pending (rule 2 each
      time, followed by `post_insert`). The new state is that of
      `PhaseStep`, or the fault it names is returned. */
  method Phase(tree: Tree, cursor: Cursor, i: nat, fromFirstWord: bool, pastBoundary: bool, maxLen: nat)
    returns (newMaxLen: nat, fault: Option<Fault>)
    requires tree.Valid() && CursorOk(tree.nodes, cursor.At()) && MaxLenOk(tree.nodes, maxLen)
    requires i < |tree.text|
    requires cursor.lag >= -1 && LeafCount(tree.nodes) + cursor.lag + 1 == i
    modifies tree, cursor
    ensures match PhaseStep(tree.text, State(old(tree.nodes), old(cursor.At()), maxLen), i, fromFirstWord, pastBoundary)
      case Ok(res) => fault == None && State(tree.nodes, cursor.At(), newMaxLen) == res.0
      case Err(f) => fault == Some(f)
  {
    ghost var goal := PhaseStep(tree.text, State(tree.nodes, cursor.At(), maxLen), i, fromFirstWord, pastBoundary);
    PhaseStarts(tree.text, State(tree.nodes, cursor.At(), maxLen), i, fromFirstWord, pastBoundary);
    newMaxLen := maxLen;
    cursor.lag := cursor.lag + 1;
    var prev: Option<nat> := None;
    while cursor.lag >= 0
      invariant Looping(tree.text, State(tree.nodes, cursor.At(), newMaxLen), prev, i)
      invariant PhaseLoop(tree.text, State(tree.nodes, cursor.At(), newMaxLen), prev, i, fromFirstWord, pastBoundary) == goal
      decreases cursor.lag
    {
      var confirmed, stem;
      confirmed, stem, newMaxLen, fault := Extension(tree, cursor, prev, i, fromFirstWord, pastBoundary, newMaxLen);
      if fault.Some? {
        return;
      }
      if confirmed {
        break;
      }
      prev := Some(stem);
    }
    if cursor.lag < 0 {
      LoopEnds(tree.text, State(tree.nodes, cursor.At(), newMaxLen), prev, i, fromFirstWord, pastBoundary);
    }
    fault := None;
  }

  /** `longestCommonSubstring(s, t)`, returning `max_len` instead of printing
      it: the phase loop over `s + '#' + t + '$'` computes `Build(s, t)`,
      the fault included (see `Construction.BuildFacts`). */
  method LongestCommonSubstring(s: string, t: string) returns (r: Result<nat>)
    ensures r == Build(s, t)
  {
    var lenS := |s|;
    var text := s + "#" + t + "$";
    assert text == Combine(s, t);
    var maxLen: nat := 0;
    var tree := new Tree(text);
    var cursor := new Cursor();
    var fromFirstWord := true;
    var i := 0;
    while i < |text|
      invariant i <= |text| && tree.text == text && fromFirstWord == (i <= lenS + 1)
      invariant Reached(text, lenS, i, State(tree.nodes, cursor.At(), maxLen))
    {
      if fromFirstWord && i > lenS {
        fromFirstWord := false;
      }
      ghost var before := State(tree.nodes, cursor.At(), maxLen);
      var fault;
      maxLen, fault := Phase(tree, cursor, i, fromFirstWord, i > lenS, maxLen);
      if fault.Some? {
        RunStops(text, lenS, i, fromFirstWord, before, fault.value);
        return Err(fault.value);
      }
      var next := i + 1;
      RunContinues(text, lenS, i, next, fromFirstWord, before, State(tree.nodes, cursor.At(), maxLen));
      i := next;
    }
    return Ok(maxLen);
  }
}
