/**
 * The cursor of the construction (the "active point") as a value, and what
 * each of its operations does to it and to the arena: `defer` (a symbol is
 * already present, so the cursor moves one symbol on), `split_edge` (make the
 * cursor's position an explicit node) and `post_insert` (drop the suffix just
 * inserted, follow the suffix link and walk down to a canonical position).
 */
module ActivePoint {
  import opened Outcomes
  import opened SuffixTree

  /** The cursor's four fields: the node it stands at, the key of the edge
      it has started along, how many symbols along that edge it is, and
      `lag`, one less than the number of suffixes still waiting to be made
      explicit. */
  datatype Point = Point(node: nat, edge: Option<char>, idx: int, lag: int)

  /** The cursor stands at an internal node and names an edge exactly when
      it is part-way along one. */
  ghost predicate Anchored(nodes: seq<Node>, p: Point)
  {
    && p.node < |nodes| && nodes[p.node].Internal?
    && p.idx >= 0
    && (p.edge.None? <==> p.idx == 0)
  }

  /** Anchored, and strictly inside the edge it names: the edge exists and
      is longer than `idx`. */
  ghost predicate CursorOk(nodes: seq<Node>, p: Point)
  {
    && Anchored(nodes, p)
    && (p.edge.Some? ==>
          && p.edge.value in nodes[p.node].edges
          && !LengthAtMost(nodes[p.node].edges[p.edge.value], p.idx))
  }

  /** The number of symbols spelled from the root to the cursor. */
  function Depth(nodes: seq<Node>, p: Point): int
    requires p.node < |nodes| && nodes[p.node].Internal?
  {
    nodes[p.node].rootLength + p.idx
  }

  /** `self.node[self.edge]`. */
  function ActiveEdge(nodes: seq<Node>, p: Point): Edge
    requires CursorOk(nodes, p) && p.edge.Some?
  {
    nodes[p.node].edges[p.edge.value]
  }

  // ------------------------------------------------------------------
  // defer

  /** `Cursor.defer(letter)`: one symbol further, adopting `letter` as the
      edge key when at a node, and onto the edge's destination when the end
      of the edge is reached. */
  function DeferredPoint(nodes: seq<Node>, p: Point, letter: char): Point
    requires CursorOk(nodes, p) && (p.idx == 0 ==> letter in nodes[p.node].edges)
  {
    var key := if p.edge.None? then letter else p.edge.value;
    var e := nodes[p.node].edges[key];
    if LengthIs(e, p.idx + 1) then Point(e.dest, None, 0, p.lag)
    else Point(p.node, Some(key), p.idx + 1, p.lag)
  }

  /** After `defer` the cursor is one symbol deeper, `lag` is unchanged, and
      it never rests at the end of an edge: either it is one further along
      the same edge and still strictly inside it, or it stands at the
      edge's destination node. */
  lemma DeferAdvances(text: string, nodes: seq<Node>, p: Point, letter: char)
    requires WellFormed(text, nodes) && CursorOk(nodes, p)
    requires p.idx == 0 ==> letter in nodes[p.node].edges
    ensures var q := DeferredPoint(nodes, p, letter);
      && CursorOk(nodes, q) && q.lag == p.lag
      && Depth(nodes, q) == Depth(nodes, p) + 1
      && ((q.node == p.node && q.idx == p.idx + 1 && q.edge.Some?
           && q.edge == (if p.idx == 0 then Some(letter) else p.edge))
          || (q.edge.None? && q.idx == 0))
  {
    var key := if p.edge.None? then letter else p.edge.value;
    assert NodeOk(text, nodes, p.node);
    assert EdgeOk(text, nodes, nodes[p.node].rootLength, key, nodes[p.node].edges[key]);
  }

  // ------------------------------------------------------------------
  // split_edge

  /** `Cursor.split_edge()`: a new internal node (appended to the arena, so
      its number is `|nodes|`) at the cursor's position; the cursor's edge
      is cut there and leads to it, and a new edge from it carries the rest
      of the old label to the old destination. */
  function SplitNodes(text: string, nodes: seq<Node>, p: Point): seq<Node>
    requires WellFormed(text, nodes) && CursorOk(nodes, p) && p.idx > 0
    requires ActiveEdge(nodes, p).start + p.idx < |text|
  {
    assert NodeOk(text, nodes, p.node);
    var key := p.edge.value;
    var e := nodes[p.node].edges[key];
    var mid := |nodes|;
    var midpoint := e.start + p.idx;
    var withMiddle := Install(nodes + [FreshInternal(nodes[p.node].rootLength + p.idx)],
                              mid, text[midpoint], Edge(e.dest, midpoint, e.end));
    withMiddle[p.node := withMiddle[p.node].(edges := withMiddle[p.node].edges[key := Edge(mid, e.start, Some(midpoint))])]
  }

  /** Splitting keeps the arena well formed and its leaves, counts no node,
      and places the new node exactly at the cursor: its string depth is
      the cursor's depth, the cursor's (shortened) edge has length `idx`
      and leads to it, and the new node has one edge, to the old
      destination, whose flags it copies. */
  lemma SplitKeepsShape(text: string, nodes: seq<Node>, p: Point)
    requires WellFormed(text, nodes) && CursorOk(nodes, p) && p.idx > 0
    requires ActiveEdge(nodes, p).start + p.idx < |text|
    ensures var r := SplitNodes(text, nodes, p);
      var e := ActiveEdge(nodes, p);
      var mid := |nodes|;
      var midpoint := e.start + p.idx;
      && WellFormed(text, r) && Grows(nodes, r) && CountedKept(nodes, r)
      && LeafCount(r) == LeafCount(nodes) && |r| == |nodes| + 1
      && e.dest < |nodes| && r[mid].Internal? && r[mid].rootLength == Depth(nodes, p)
      && r[mid].edges == map[text[midpoint] := Edge(e.dest, midpoint, e.end)]
      && HasSLeaves(r[mid]) == HasSLeaves(nodes[e.dest])
      && HasTLeaves(r[mid]) == HasTLeaves(nodes[e.dest])
      && r[p.node].edges == nodes[p.node].edges[p.edge.value := Edge(mid, e.start, Some(midpoint))]
      && LengthIs(r[p.node].edges[p.edge.value], p.idx)
      && Anchored(r, p)
      && forall m | 0 <= m < |nodes| && m != p.node :: r[m] == nodes[m]
  {
    assert NodeOk(text, nodes, p.node);
    var key := p.edge.value;
    var e := nodes[p.node].edges[key];
    assert EdgeOk(text, nodes, nodes[p.node].rootLength, key, e);
    var mid := |nodes|;
    var midpoint := e.start + p.idx;
    var a := nodes + [FreshInternal(nodes[p.node].rootLength + p.idx)];
    var next := Edge(e.dest, midpoint, e.end);
    var b := Install(a, mid, text[midpoint], next);
    var r := SplitNodes(text, nodes, p);
    assert r == b[p.node := b[p.node].(edges := b[p.node].edges[key := Edge(mid, e.start, Some(midpoint))])];
    assert Grows(nodes, a);
    InstallOrsFlags(a, mid, text[midpoint], next);
    assert Grows(a, r);
    GrowsTransitive(nodes, a, r);
    forall n | 0 <= n < |r|
      ensures NodeOk(text, r, n)
    {
      if n == mid {
        assert EdgeOk(text, r, r[mid].rootLength, text[midpoint], next);
      } else if n != p.node {
        NodeOkGrows(text, nodes, r, n);
      } else {
        forall c | c in r[n].edges
          ensures EdgeOk(text, r, r[n].rootLength, c, r[n].edges[c])
        {
          if c != key {
            EdgeOkGrows(text, nodes, r, nodes[n].rootLength, c, nodes[n].edges[c]);
          }
        }
        if r[n].link.Some? {
          assert NodeGrows(nodes[r[n].link.value], r[r[n].link.value]);
        }
      }
    }
    LeafCountAppend(nodes, FreshInternal(nodes[p.node].rootLength + p.idx));
    LeafCountGrows(a, r);
  }

  /** The two edges a split leaves spell, one after the other, what the cut
      edge spelled, at any reading position past the cut. */
  lemma SplitKeepsLabel(text: string, nodes: seq<Node>, p: Point, pos: nat)
    requires WellFormed(text, nodes) && CursorOk(nodes, p) && p.idx > 0
    requires ActiveEdge(nodes, p).start + p.idx <= pos <= |text|
    ensures var e := ActiveEdge(nodes, p);
      var midpoint := e.start + p.idx;
      var first := Edge(|nodes|, e.start, Some(midpoint));
      var second := Edge(e.dest, midpoint, e.end);
      && e.start <= midpoint <= EndAt(e, pos) <= |text|
      && |Label(text, first, pos)| == p.idx
      && Label(text, first, pos) + Label(text, second, pos) == Label(text, e, pos)
  {
    assert NodeOk(text, nodes, p.node);
    var e := ActiveEdge(nodes, p);
    assert EdgeOk(text, nodes, nodes[p.node].rootLength, p.edge.value, e);
    var midpoint := e.start + p.idx;
    var end := EndAt(e, pos);
    assert text[e.start..midpoint] + text[midpoint..end] == text[e.start..end];
  }

  // ------------------------------------------------------------------
  // post_insert

  /** The node a suffix link leads to, or the root when there is none. */
  function LinkTarget(nodes: seq<Node>, n: nat): nat
    requires n < |nodes| && nodes[n].Internal?
  {
    if nodes[n].link.Some? then nodes[n].link.value else Root
  }

  /** The descent loop of `post_insert`: while the cursor is at or past the
      end of its edge, move to the edge's destination, subtract the edge's
      length and re-read the edge key from the text. */
  function CanonicalPoint(text: string, nodes: seq<Node>, p: Point, i: nat): Result<Point>
    requires WellFormed(text, nodes) && Anchored(nodes, p) && p.lag <= i
    decreases p.idx
  {
    if p.edge.None? then Ok(p)
    else if p.edge.value !in nodes[p.node].edges then Err(MissingEdge)
    else
      assert NodeOk(text, nodes, p.node);
      var e := nodes[p.node].edges[p.edge.value];
      assert EdgeOk(text, nodes, nodes[p.node].rootLength, p.edge.value, e);
      if !LengthAtMost(e, p.idx) then Ok(p)
      else if LengthIs(e, p.idx) then Ok(Point(e.dest, None, 0, p.lag))
      else
        var k := i - p.lag + nodes[e.dest].rootLength;
        if k < |text| then
          CanonicalPoint(text, nodes, Point(e.dest, Some(text[k]), p.idx - (e.end.value - e.start), p.lag), i)
        else Err(IndexOutOfRange)
  }

  /** The descent ends strictly inside an edge (or at a node), with the
      same string depth it started from, no further along its edge, and
      `lag` untouched. */
  lemma {:induction false} CanonicalLands(text: string, nodes: seq<Node>, p: Point, i: nat)
    requires WellFormed(text, nodes) && Anchored(nodes, p) && p.lag <= i
    ensures CanonicalPoint(text, nodes, p, i).Ok? ==>
      var q := CanonicalPoint(text, nodes, p, i).value;
      && CursorOk(nodes, q) && q.lag == p.lag
      && Depth(nodes, q) == Depth(nodes, p)
      && 0 <= q.idx <= p.idx
    decreases p.idx
  {
    if p.edge.Some? && p.edge.value in nodes[p.node].edges {
      assert NodeOk(text, nodes, p.node);
      var e := nodes[p.node].edges[p.edge.value];
      assert EdgeOk(text, nodes, nodes[p.node].rootLength, p.edge.value, e);
      if LengthAtMost(e, p.idx) && !LengthIs(e, p.idx) {
        var k := i - p.lag + nodes[e.dest].rootLength;
        if k < |text| {
          CanonicalLands(text, nodes, Point(e.dest, Some(text[k]), p.idx - (e.end.value - e.start), p.lag), i);
        }
      }
    }
  }

  /** `Cursor.post_insert(i)`: one fewer suffix pending; at the root the
      offset drops the suffix's first symbol; then follow the suffix link
      (or go to the root) and walk down to a canonical position. */
  function PostInsertPoint(text: string, nodes: seq<Node>, p: Point, i: nat): Result<Point>
    requires WellFormed(text, nodes) && Anchored(nodes, p) && i < |text| && 0 <= p.lag <= i
  {
    assert NodeOk(text, nodes, p.node);
    var lag := p.lag - 1;
    if p.node == Root && p.idx > 1 && i - lag >= |text| then Err(IndexOutOfRange)
    else
      var edge := if p.node != Root then p.edge else if p.idx > 1 then Some(text[i - lag]) else None;
      var idx := if p.node != Root then p.idx else if p.idx > 1 then p.idx - 1 else 0;
      CanonicalPoint(text, nodes, Point(LinkTarget(nodes, p.node), edge, idx, lag), i)
  }

  /** When `post_insert` succeeds, `lag` has dropped by one and the cursor
      is strictly inside an edge (or at a node) below the suffix-link target,
      at that target's depth plus the remaining offset; from the root without
      a link that is one symbol less than before (never below zero). */
  lemma PostInsertLands(text: string, nodes: seq<Node>, p: Point, i: nat)
    requires WellFormed(text, nodes) && Anchored(nodes, p) && i < |text| && 0 <= p.lag <= i
    ensures PostInsertPoint(text, nodes, p, i).Ok? ==>
      var q := PostInsertPoint(text, nodes, p, i).value;
      && CursorOk(nodes, q) && q.lag == p.lag - 1
      && LinkTarget(nodes, p.node) < |nodes| && nodes[LinkTarget(nodes, p.node)].Internal?
      && Depth(nodes, q) == nodes[LinkTarget(nodes, p.node)].rootLength
           + (if p.node != Root then p.idx else if p.idx > 1 then p.idx - 1 else 0)
      && (p.node == Root && nodes[Root].link.None? ==>
            Depth(nodes, q) == if Depth(nodes, p) > 1 then Depth(nodes, p) - 1 else 0)
  {
    assert NodeOk(text, nodes, p.node);
    var lag := p.lag - 1;
    if !(p.node == Root && p.idx > 1 && i - lag >= |text|) {
      var edge := if p.node != Root then p.edge else if p.idx > 1 then Some(text[i - lag]) else None;
      var idx := if p.node != Root then p.idx else if p.idx > 1 then p.idx - 1 else 0;
      CanonicalLands(text, nodes, Point(LinkTarget(nodes, p.node), edge, idx, lag), i);
    }
  }
}
