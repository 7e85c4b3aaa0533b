/**
 * The node store of the generalised suffix tree that `longestCommonSubstring`
 * builds. Nodes live in an arena: a sequence indexed by node number, node 0
 * being the root, so that suffix links and "is this the root" are plain index
 * comparisons. Edges name a slice of the one combined string; an edge whose
 * end is `None` is open and reaches as far as the construction has read.
 */
module SuffixTree {
  import opened Outcomes

  const Root: nat := 0

  // ------------------------------------------------------------------
  // The combined string

  /** The string the tree is built over: the first word, '#', the second
      word, '$'. The first word occupies indices below `|s|`. */
  function Combine(s: string, t: string): string
  {
    s + "#" + t + "$"
  }

  /** When neither word contains a separator, '#' sits exactly at the
      boundary `|s|`, '$' exactly at the last index, and every other index
      holds a symbol of the word it belongs to. */
  lemma CombineLayout(s: string, t: string, k: nat)
    requires '#' !in s && '#' !in t && '$' !in s && '$' !in t
    requires k < |s| + |t| + 2
    ensures |Combine(s, t)| == |s| + |t| + 2
    ensures Combine(s, t)[k] == '#' <==> k == |s|
    ensures Combine(s, t)[k] == '$' <==> k == |s| + |t| + 1
    ensures k < |s| ==> Combine(s, t)[k] == s[k]
    ensures |s| < k < |s| + |t| + 1 ==> Combine(s, t)[k] == t[k - |s| - 1]
  {
    var c := Combine(s, t);
    assert c[|s|] == '#' && c[|s| + |t| + 1] == '$';
    if k < |s| {
      assert c[k] == s[k];
    } else if |s| < k < |s| + |t| + 1 {
      assert c[k] == t[k - |s| - 1];
    }
  }

  // ------------------------------------------------------------------
  // Edges and nodes

  /** An edge owns its destination and names `text[start..end]`; `end == None`
      is the open end that the source writes as an infinite bound. */
  datatype Edge = Edge(dest: nat, start: nat, end: Option<nat>)

  /** `edge.length <= k`: only a closed edge can be that short. */
  predicate LengthAtMost(e: Edge, k: int)
  {
    e.end.Some? && e.end.value - e.start <= k
  }

  /** `edge.length == k`: never true of an open edge. */
  predicate LengthIs(e: Edge, k: int)
  {
    e.end.Some? && e.end.value - e.start == k
  }

  /** The last index (exclusive) an edge reaches once `pos` symbols are read. */
  function EndAt(e: Edge, pos: nat): nat
  {
    if e.end.Some? then e.end.value else pos
  }

  /** The symbols an edge spells once `pos` symbols are read. */
  function Label(text: string, e: Edge, pos: nat): string
    requires e.start <= EndAt(e, pos) <= |text|
  {
    text[e.start..EndAt(e, pos)]
  }

  /** `LeafNode` carries the word it came from; `InternalNode` carries its
      edges keyed by first symbol, its suffix link, its string depth
      (`root_length`), the two leaf-origin flags and `already_counted`. */
  datatype Node =
    | Leaf(fromFirstWord: bool)
    | Internal(edges: map<char, Edge>, link: Option<nat>, rootLength: nat,
               hasS: bool, hasT: bool, counted: bool)

  /** `InternalNode(root_length)`: no edges, no link, no flags set. */
  function FreshInternal(rootLength: nat): Node
  {
    Internal(map[], None, rootLength, false, false, false)
  }

  /** The `has_s_leaves` property of either kind of node. */
  function HasSLeaves(n: Node): bool
  {
    match n
    case Leaf(first) => first
    case Internal(_, _, _, s, _, _) => s
  }

  /** The `has_t_leaves` property of either kind of node. */
  function HasTLeaves(n: Node): bool
  {
    match n
    case Leaf(first) => !first
    case Internal(_, _, _, _, t, _) => t
  }

  /** A leaf reports exactly one origin. */
  lemma LeafHasOneOrigin(n: Node)
    requires n.Leaf?
    ensures HasSLeaves(n) != HasTLeaves(n)
    ensures HasTLeaves(n) == !n.fromFirstWord
  {
  }

  predicate Counted(n: Node)
  {
    n.Internal? && n.counted
  }

  // ------------------------------------------------------------------
  // The shape every construction step keeps

  /** An edge stored under key `c` at a node of string depth `depth`: its
      label starts with `c`; an open edge leads to a leaf; a closed edge is
      non-empty, lies inside the text and leads to an internal node whose
      string depth adds the edge's length. */
  ghost predicate EdgeOk(text: string, nodes: seq<Node>, depth: nat, c: char, e: Edge)
  {
    && e.dest < |nodes|
    && e.start < |text| && text[e.start] == c
    && match e.end
       case None => nodes[e.dest].Leaf?
       case Some(end) =>
         && e.start < end <= |text|
         && nodes[e.dest].Internal?
         && nodes[e.dest].rootLength == depth + (end - e.start)
  }

  ghost predicate NodeOk(text: string, nodes: seq<Node>, n: nat)
    requires n < |nodes|
  {
    nodes[n].Internal? ==>
      && (nodes[n].link.Some? ==>
            nodes[n].link.value < |nodes| && nodes[nodes[n].link.value].Internal?)
      && (nodes[n].counted ==> nodes[n].hasS && nodes[n].hasT)
      && forall c | c in nodes[n].edges :: EdgeOk(text, nodes, nodes[n].rootLength, c, nodes[n].edges[c])
  }

  /** The arena invariant: the root is internal at string depth 0, and every
      node's edges and link are as `NodeOk` says. */
  ghost predicate WellFormed(text: string, nodes: seq<Node>)
  {
    && |nodes| > 0
    && nodes[Root].Internal? && nodes[Root].rootLength == 0
    && forall n | 0 <= n < |nodes| :: NodeOk(text, nodes, n)
  }

  /** How a node may change: a leaf never changes, an internal node keeps
      its string depth and its flags only ever turn on. */
  predicate NodeGrows(x: Node, y: Node)
  {
    match x
    case Leaf(_) => y == x
    case Internal(_, _, depth, s, t, c) =>
      && y.Internal? && y.rootLength == depth
      && (s ==> y.hasS) && (t ==> y.hasT) && (c ==> y.counted)
  }

  /** `b` is a later state of the arena `a`: nothing is removed and every
      node grows. */
  ghost predicate Grows(a: seq<Node>, b: seq<Node>)
  {
    && |a| <= |b|
    && forall n | 0 <= n < |a| :: NodeGrows(a[n], b[n])
  }

  lemma GrowsTransitive(a: seq<Node>, b: seq<Node>, c: seq<Node>)
    requires Grows(a, b) && Grows(b, c)
    ensures Grows(a, c)
  {
  }

  /** No node of `b` is counted unless it already was in `a`. */
  ghost predicate CountedKept(a: seq<Node>, b: seq<Node>)
  {
    forall n | 0 <= n < |b| && Counted(b[n]) :: n < |a| && Counted(a[n])
  }

  /** An edge that was fine stays fine as the arena grows. */
  lemma EdgeOkGrows(text: string, a: seq<Node>, b: seq<Node>, depth: nat, c: char, e: Edge)
    requires Grows(a, b) && EdgeOk(text, a, depth, c, e)
    ensures EdgeOk(text, b, depth, c, e)
  {
    assert NodeGrows(a[e.dest], b[e.dest]);
  }

  /** A node whose edges, link and counted flag are untouched stays fine as
      the arena grows. */
  lemma NodeOkGrows(text: string, a: seq<Node>, b: seq<Node>, n: nat)
    requires Grows(a, b) && n < |a| && NodeOk(text, a, n)
    requires a[n].Internal? ==>
      b[n].edges == a[n].edges && b[n].link == a[n].link && b[n].counted == a[n].counted
    ensures NodeOk(text, b, n)
  {
    assert NodeGrows(a[n], b[n]);
    if a[n].Internal? {
      if b[n].link.Some? {
        assert NodeGrows(a[b[n].link.value], b[b[n].link.value]);
      }
      forall c | c in b[n].edges
        ensures EdgeOk(text, b, b[n].rootLength, c, b[n].edges[c])
      {
        EdgeOkGrows(text, a, b, a[n].rootLength, c, a[n].edges[c]);
      }
    }
  }

  // ------------------------------------------------------------------
  // Leaf count

  function LeafCount(nodes: seq<Node>): nat
  {
    if |nodes| == 0 then 0
    else LeafCount(nodes[..|nodes| - 1]) + (if nodes[|nodes| - 1].Leaf? then 1 else 0)
  }

  /** Updating nodes in place without changing their kind keeps the number
      of leaves. */
  lemma {:induction false} LeafCountSameKinds(a: seq<Node>, b: seq<Node>)
    requires |a| == |b|
    requires forall n | 0 <= n < |a| :: a[n].Leaf? == b[n].Leaf?
    ensures LeafCount(a) == LeafCount(b)
  {
    if |a| > 0 {
      LeafCountSameKinds(a[..|a| - 1], b[..|b| - 1]);
    }
  }

  /** Appending a node adds one to the count exactly when it is a leaf. */
  lemma LeafCountAppend(a: seq<Node>, x: Node)
    ensures LeafCount(a + [x]) == LeafCount(a) + (if x.Leaf? then 1 else 0)
  {
    assert (a + [x])[..|a|] == a;
  }

  /** Growth that adds no node keeps the number of leaves. */
  lemma LeafCountGrows(a: seq<Node>, b: seq<Node>)
    requires Grows(a, b) && |a| == |b|
    ensures LeafCount(a) == LeafCount(b)
  {
    forall n | 0 <= n < |a|
      ensures a[n].Leaf? == b[n].Leaf?
    {
      assert NodeGrows(a[n], b[n]);
    }
    LeafCountSameKinds(a, b);
  }

  // ------------------------------------------------------------------
  // InternalNode.__setitem__ and the other single-node updates

  /** `node[key] = e`: install the edge and OR the destination's leaf-origin
      flags into the node. */
  function Install(nodes: seq<Node>, n: nat, key: char, e: Edge): seq<Node>
    requires n < |nodes| && nodes[n].Internal? && e.dest < |nodes|
  {
    var u := nodes[n];
    nodes[n := u.(edges := u.edges[key := e],
                  hasS := u.hasS || HasSLeaves(nodes[e.dest]),
                  hasT := u.hasT || HasTLeaves(nodes[e.dest]))]
  }

  /** Installing an edge is the only way a node's flags change, they change
      by OR with the child's flags, and so they only ever turn on. */
  lemma InstallOrsFlags(nodes: seq<Node>, n: nat, key: char, e: Edge)
    requires n < |nodes| && nodes[n].Internal? && e.dest < |nodes|
    ensures var r := Install(nodes, n, key, e);
      && Grows(nodes, r) && CountedKept(nodes, r) && |r| == |nodes|
      && r[n].edges == nodes[n].edges[key := e] && r[n].link == nodes[n].link
      && (r[n].hasS <==> nodes[n].hasS || HasSLeaves(nodes[e.dest]))
      && (r[n].hasT <==> nodes[n].hasT || HasTLeaves(nodes[e.dest]))
      && forall m | 0 <= m < |nodes| && m != n :: r[m] == nodes[m]
  {
  }

  /** `stem[letter] = Edge(LeafNode(fromFirstWord), i, inf)`. */
  function AddLeaf(nodes: seq<Node>, stem: nat, letter: char, i: nat, fromFirstWord: bool): seq<Node>
    requires stem < |nodes| && nodes[stem].Internal?
  {
    Install(nodes + [Leaf(fromFirstWord)], stem, letter, Edge(|nodes|, i, None))
  }

  /** Adding a leaf keeps the arena well formed, adds exactly one leaf (of
      the given origin, hanging from `stem` under `letter` on an open edge)
      and turns on the matching flag of `stem`. */
  lemma AddLeafKeepsShape(text: string, nodes: seq<Node>, stem: nat, letter: char, i: nat, fromFirstWord: bool)
    requires WellFormed(text, nodes) && stem < |nodes| && nodes[stem].Internal?
    requires i < |text| && text[i] == letter
    ensures var r := AddLeaf(nodes, stem, letter, i, fromFirstWord);
      && WellFormed(text, r) && Grows(nodes, r) && CountedKept(nodes, r)
      && |r| == |nodes| + 1 && r[|nodes|] == Leaf(fromFirstWord)
      && r[stem].edges == nodes[stem].edges[letter := Edge(|nodes|, i, None)]
      && (if fromFirstWord then r[stem].hasS else r[stem].hasT)
      && LeafCount(r) == LeafCount(nodes) + 1
  {
    var a := nodes + [Leaf(fromFirstWord)];
    var r := AddLeaf(nodes, stem, letter, i, fromFirstWord);
    assert Grows(nodes, a);
    InstallOrsFlags(a, stem, letter, Edge(|nodes|, i, None));
    GrowsTransitive(nodes, a, r);
    forall n | 0 <= n < |r|
      ensures NodeOk(text, r, n)
    {
      if n == |nodes| {
      } else if n != stem {
        NodeOkGrows(text, nodes, a, n);
        NodeOkGrows(text, a, r, n);
      } else {
        assert NodeOk(text, nodes, n);
        forall c | c in r[n].edges
          ensures EdgeOk(text, r, r[n].rootLength, c, r[n].edges[c])
        {
          if c != letter {
            EdgeOkGrows(text, nodes, r, nodes[n].rootLength, c, nodes[n].edges[c]);
          }
        }
        if r[n].link.Some? {
          assert NodeGrows(nodes[r[n].link.value], r[r[n].link.value]);
        }
      }
    }
    LeafCountAppend(nodes, Leaf(fromFirstWord));
    LeafCountGrows(a, r);
  }

  /** `prev.link = target`. */
  function Linked(nodes: seq<Node>, n: nat, target: nat): seq<Node>
    requires n < |nodes| && nodes[n].Internal?
  {
    nodes[n := nodes[n].(link := Some(target))]
  }

  /** Setting a suffix link to an internal node keeps the arena well formed
      and changes nothing else. */
  lemma LinkKeepsShape(text: string, nodes: seq<Node>, n: nat, target: nat)
    requires WellFormed(text, nodes) && n < |nodes| && nodes[n].Internal?
    requires target < |nodes| && nodes[target].Internal?
    ensures var r := Linked(nodes, n, target);
      && WellFormed(text, r) && Grows(nodes, r) && CountedKept(nodes, r)
      && LeafCount(r) == LeafCount(nodes)
      && forall m | 0 <= m < |r| && r[m].Internal? :: r[m].edges == nodes[m].edges
  {
    var r := Linked(nodes, n, target);
    assert Grows(nodes, r);
    forall m | 0 <= m < |r|
      ensures NodeOk(text, r, m)
    {
      if m != n {
        NodeOkGrows(text, nodes, r, m);
      } else {
        assert NodeOk(text, nodes, m);
        forall c | c in r[m].edges
          ensures EdgeOk(text, r, r[m].rootLength, c, r[m].edges[c])
        {
          EdgeOkGrows(text, nodes, r, nodes[m].rootLength, c, nodes[m].edges[c]);
        }
      }
    }
    LeafCountGrows(nodes, r);
  }

  /** `stem.already_counted = True`. */
  function MarkedCounted(nodes: seq<Node>, n: nat): seq<Node>
    requires n < |nodes| && nodes[n].Internal?
  {
    nodes[n := nodes[n].(counted := true)]
  }

  // ------------------------------------------------------------------
  // The common-substring tracker

  /** `maxLen` is the greatest string depth of a counted node, or 0 when no
      node is counted; every counted node has both leaf-origin flags set. */
  ghost predicate MaxLenOk(nodes: seq<Node>, maxLen: nat)
  {
    && (forall n | 0 <= n < |nodes| && Counted(nodes[n]) :: nodes[n].rootLength <= maxLen)
    && (maxLen == 0 || exists n | 0 <= n < |nodes| :: Counted(nodes[n]) && nodes[n].rootLength == maxLen)
  }

  /** Steps that count no new node leave the tracked maximum correct. */
  lemma MaxLenKept(a: seq<Node>, b: seq<Node>, maxLen: nat)
    requires Grows(a, b) && CountedKept(a, b) && MaxLenOk(a, maxLen)
    ensures MaxLenOk(b, maxLen)
  {
    forall n | 0 <= n < |b| && Counted(b[n])
      ensures b[n].rootLength <= maxLen
    {
      assert NodeGrows(a[n], b[n]);
    }
    if maxLen != 0 {
      var w :| 0 <= w < |a| && Counted(a[w]) && a[w].rootLength == maxLen;
      assert NodeGrows(a[w], b[w]);
      assert Counted(b[w]) && b[w].rootLength == maxLen;
    }
  }

  /** Counting a node with both leaf-origin flags set keeps the arena well
      formed, and the maximum of its old value and the node's string depth
      is again the tracked maximum. */
  lemma MarkKeepsShape(text: string, nodes: seq<Node>, n: nat, maxLen: nat)
    requires WellFormed(text, nodes) && n < |nodes| && nodes[n].Internal?
    requires nodes[n].hasS && nodes[n].hasT
    requires MaxLenOk(nodes, maxLen)
    ensures var r := MarkedCounted(nodes, n);
      && WellFormed(text, r) && Grows(nodes, r) && LeafCount(r) == LeafCount(nodes)
      && Counted(r[n])
      && MaxLenOk(r, if nodes[n].rootLength > maxLen then nodes[n].rootLength else maxLen)
      && forall m | 0 <= m < |r| && r[m].Internal? :: r[m].edges == nodes[m].edges
  {
    var r := MarkedCounted(nodes, n);
    var m' := if nodes[n].rootLength > maxLen then nodes[n].rootLength else maxLen;
    assert Grows(nodes, r);
    forall m | 0 <= m < |r|
      ensures NodeOk(text, r, m)
    {
      if m != n {
        NodeOkGrows(text, nodes, r, m);
      } else {
        assert NodeOk(text, nodes, m);
        forall c | c in r[m].edges
          ensures EdgeOk(text, r, r[m].rootLength, c, r[m].edges[c])
        {
          EdgeOkGrows(text, nodes, r, nodes[m].rootLength, c, nodes[m].edges[c]);
        }
      }
    }
    LeafCountGrows(nodes, r);
    forall m | 0 <= m < |r| && Counted(r[m])
      ensures r[m].rootLength <= m'
    {
      if m != n {
        assert Counted(nodes[m]);
      }
    }
    if m' != 0 {
      if m' == nodes[n].rootLength {
        assert Counted(r[n]) && r[n].rootLength == m';
      } else {
        var w :| 0 <= w < |nodes| && Counted(nodes[w]) && nodes[w].rootLength == maxLen;
        assert Counted(r[w]) && r[w].rootLength == m';
      }
    }
  }
}
