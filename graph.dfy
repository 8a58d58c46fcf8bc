/**
 * Building the segmentation graph (x.py, Node, Edge, the globals V and E,
 * process_sequence and create_edges).
 *
 * Segment and Link are the specifications: what process_sequence appends
 * to V and what create_edges appends to E. The class VariationGraph holds
 * V and E as fields and its methods are the two loops of the source,
 * proved against those specifications.
 */
module Graph {
  import opened Breakpoints

  /** A node: its number and the piece of the sequence it stands for. */
  datatype Node = Node(id: int, segment: string)

  /** An edge between two node numbers, with its CIGAR string and variation label. */
  datatype Edge = Edge(fromNode: int, toNode: int, cigar: string, variationType: string)

  /** The CIGAR string of every edge. */
  const JoinCigar := "0M"

  /** The variation label of an edge with no variation left to take. */
  const PlainMatch := "M"

  /**
   * `s[i:j]` for non-negative bounds: Python clamps both bounds to the
   * length and gives the empty string when the upper one is not above the
   * lower one.
   */
  function Slice(s: string, i: nat, j: nat): (r: string)
    ensures |r| == if i >= |s| || j <= i then 0 else (if j < |s| then j else |s|) - i
    ensures forall k :: 0 <= k < |r| ==> r[k] == s[i + k]
  {
    var lo := if i < |s| then i else |s|;
    var hi := if j < |s| then j else |s|;
    if hi <= lo then [] else s[lo..hi]
  }

  /** Slices that meet at `j` join up to the clamped suffix. */
  lemma SliceJoin(s: string, i: nat, j: nat)
    requires i <= j
    ensures Slice(s, i, j) + Slice(s, j, |s|) == Slice(s, i, |s|)
  {
  }

  // ---------------------------------------------------------------------
  // process_sequence
  // ---------------------------------------------------------------------

  /**
   * The nodes the sweep of process_sequence emits from the point where the
   * cursor is `prev`, the counter is `id` and `bps` is left to visit: a
   * breakpoint above the cursor closes a node and moves the cursor, any
   * other is skipped; at the end, what lies past the cursor is one more node.
   */
  function SegmentFrom(s: string, bps: seq<int>, prev: nat, id: int): seq<Node>
    decreases |bps|
  {
    if bps == [] then
      if prev < |s| then [Node(id, s[prev..])] else []
    else if bps[0] > prev then
      [Node(id, Slice(s, prev, bps[0]))] + SegmentFrom(s, bps[1..], bps[0], id + 1)
    else
      SegmentFrom(s, bps[1..], prev, id)
  }

  /** What process_sequence(s, bps) appends to V: the sweep from cursor 0 and counter 1. */
  function Segment(s: string, bps: seq<int>): seq<Node> {
    SegmentFrom(s, bps, 0, 1)
  }

  /** The node labels written one after the other. */
  function Labels(nodes: seq<Node>): string
    decreases |nodes|
  {
    if nodes == [] then [] else nodes[0].segment + Labels(nodes[1..])
  }

  lemma {:induction false} LabelsFrom(s: string, bps: seq<int>, prev: nat, id: int)
    ensures Labels(SegmentFrom(s, bps, prev, id)) == Slice(s, prev, |s|)
    decreases |bps|
  {
    var nodes := SegmentFrom(s, bps, prev, id);
    if bps == [] {
      if prev < |s| {
        assert nodes[1..] == [];
      }
    } else if bps[0] > prev {
      LabelsFrom(s, bps[1..], bps[0], id + 1);
      assert nodes[1..] == SegmentFrom(s, bps[1..], bps[0], id + 1);
      SliceJoin(s, prev, bps[0]);
    } else {
      LabelsFrom(s, bps[1..], prev, id);
    }
  }

  /** Conservation: for any breakpoints, the labels in node order spell the sequence. */
  lemma SegmentLabels(s: string, bps: seq<int>)
    ensures Labels(Segment(s, bps)) == s
  {
    LabelsFrom(s, bps, 0, 1);
    assert s[0..|s|] == s;
  }

  lemma {:induction false} IdsFrom(s: string, bps: seq<int>, prev: nat, id: int)
    ensures forall k :: 0 <= k < |SegmentFrom(s, bps, prev, id)| ==> SegmentFrom(s, bps, prev, id)[k].id == id + k
    decreases |bps|
  {
    if bps != [] {
      if bps[0] > prev {
        IdsFrom(s, bps[1..], bps[0], id + 1);
      } else {
        IdsFrom(s, bps[1..], prev, id);
      }
    }
  }

  /** Node numbers are 1, 2, ..., |V| in creation order. */
  lemma SegmentIds(s: string, bps: seq<int>)
    ensures forall k :: 0 <= k < |Segment(s, bps)| ==> Segment(s, bps)[k].id == k + 1
  {
    IdsFrom(s, bps, 0, 1);
  }

  lemma {:induction false} NonEmptyFrom(s: string, bps: seq<int>, prev: nat, id: int)
    requires forall k :: 0 <= k < |bps| ==> bps[k] <= |s|
    ensures forall k :: 0 <= k < |SegmentFrom(s, bps, prev, id)| ==> SegmentFrom(s, bps, prev, id)[k].segment != []
    decreases |bps|
  {
    if bps != [] {
      if bps[0] > prev {
        NonEmptyFrom(s, bps[1..], bps[0], id + 1);
      } else {
        NonEmptyFrom(s, bps[1..], prev, id);
      }
    }
  }

  /** No node is empty when no breakpoint lies past the end of the sequence. */
  lemma SegmentNonEmpty(s: string, bps: seq<int>)
    requires forall k :: 0 <= k < |bps| ==> bps[k] <= |s|
    ensures forall k :: 0 <= k < |Segment(s, bps)| ==> Segment(s, bps)[k].segment != []
  {
    NonEmptyFrom(s, bps, 0, 1);
  }

  /** A breakpoint past the end gives a truncated node, and one more after it an empty node. */
  lemma PastTheEnd()
    ensures Segment("ACGT", [2, 6, 9]) == [Node(1, "AC"), Node(2, "GT"), Node(3, "")]
  {
    assert SegmentFrom("ACGT", [], 9, 4) == [];
    assert SegmentFrom("ACGT", [9], 6, 3) == [Node(3, "")];
    assert Slice("ACGT", 2, 6) == "GT";
    assert SegmentFrom("ACGT", [6, 9], 2, 2) == [Node(2, "GT"), Node(3, "")] by {
      assert [6, 9][1..] == [9];
    }
    assert [2, 6, 9][1..] == [6, 9];
    assert Slice("ACGT", 0, 2) == "AC";
  }

  /** Worked cases: two halves; a cut at 0 and at the end; no cut at all. */
  lemma SmallCases()
    ensures Segment("ACGTACGT", [4]) == [Node(1, "ACGT"), Node(2, "ACGT")]
    ensures Segment("ACGT", [0, 4]) == [Node(1, "ACGT")]
    ensures Segment("TTTT", []) == [Node(1, "TTTT")]
  {
    assert Slice("ACGTACGT", 0, 4) == "ACGT";
    assert "ACGTACGT"[4..] == "ACGT";
    assert SegmentFrom("ACGTACGT", [], 4, 2) == [Node(2, "ACGT")];
    assert Slice("ACGT", 0, 4) == "ACGT";
    assert [0, 4][1..] == [4];
    assert SegmentFrom("ACGT", [4], 0, 1) == [Node(1, "ACGT")];
    assert "TTTT"[0..] == "TTTT";
  }

  lemma {:induction false} NoCutFrom(s: string, bps: seq<int>, id: int)
    requires |s| > 0
    requires forall k :: 0 <= k < |bps| ==> bps[k] <= 0
    ensures SegmentFrom(s, bps, 0, id) == [Node(id, s)]
    decreases |bps|
  {
    if bps != [] {
      NoCutFrom(s, bps[1..], id);
    }
  }

  /** With no breakpoint above 0, a non-empty sequence becomes exactly one node covering it. */
  lemma SegmentWithoutCuts(s: string, bps: seq<int>)
    requires |s| > 0
    requires forall k :: 0 <= k < |bps| ==> bps[k] <= 0
    ensures Segment(s, bps) == [Node(1, s)]
  {
    NoCutFrom(s, bps, 1);
  }

  /** How many elements of `bps` lie above `p`. */
  function CountAbove(bps: seq<int>, p: int): nat
    decreases |bps|
  {
    if bps == [] then 0 else (if bps[0] > p then 1 else 0) + CountAbove(bps[1..], p)
  }

  lemma {:induction false} CountAboveAll(bps: seq<int>, p: int)
    requires forall k :: 0 <= k < |bps| ==> bps[k] > p
    ensures CountAbove(bps, p) == |bps|
    decreases |bps|
  {
    if bps != [] {
      CountAboveAll(bps[1..], p);
    }
  }

  lemma {:induction false} CountFrom(s: string, bps: seq<int>, prev: nat, id: int)
    requires StrictlyAscending(bps)
    requires forall k :: 0 <= k < |bps| ==> bps[k] <= |s|
    ensures |SegmentFrom(s, bps, prev, id)| ==
      CountAbove(bps, prev) + (if prev < |s| && |s| !in bps then 1 else 0)
    decreases |bps|
  {
    if bps != [] {
      var rest := bps[1..];
      assert forall y :: y in bps <==> y == bps[0] || y in rest;
      if bps[0] > prev {
        CountFrom(s, rest, bps[0], id + 1);
        CountAboveAll(rest, bps[0]);
        CountAboveAll(rest, prev);
      } else {
        CountFrom(s, rest, prev, id);
      }
    }
  }

  /**
   * On normalised breakpoints within the sequence, every positive
   * breakpoint closes one node, and a trailing node follows exactly when
   * no breakpoint equals the sequence length: a breakpoint at the end
   * suppresses the trailing node.
   */
  lemma SegmentCount(s: string, bps: seq<int>)
    requires StrictlyAscending(bps)
    requires forall k :: 0 <= k < |bps| ==> bps[k] <= |s|
    ensures |Segment(s, bps)| == CountAbove(bps, 0) + (if 0 < |s| && |s| !in bps then 1 else 0)
  {
    CountFrom(s, bps, 0, 1);
  }

  lemma {:induction false} DedupFrom(s: string, bps: seq<int>, prev: nat, id: int)
    requires NonDecreasing(bps)
    ensures SegmentFrom(s, Dedup(bps), prev, id) == SegmentFrom(s, bps, prev, id)
    decreases |bps|
  {
    if |bps| > 1 {
      var rest := bps[1..];
      DedupFrom(s, rest, prev, id);
      if bps[0] == bps[1] {
        assert rest[0] == bps[0] && rest[1..] == bps[2..];
      } else {
        DedupFrom(s, rest, if bps[0] > prev then bps[0] else prev, if bps[0] > prev then id + 1 else id);
        assert ([bps[0]] + Dedup(rest))[1..] == Dedup(rest);
      }
    }
  }

  /**
   * On a non-decreasing list, the `bp > prev` test already skips the
   * repeats: normalising first does not change the nodes.
   */
  lemma SegmentIgnoresDuplicates(s: string, bps: seq<int>)
    requires NonDecreasing(bps)
    ensures Segment(s, Normalize(bps)) == Segment(s, bps)
  {
    NormalizeNonDecreasing(bps);
    DedupFrom(s, bps, 0, 1);
  }

  // ---------------------------------------------------------------------
  // create_edges
  // ---------------------------------------------------------------------

  /**
   * What create_edges appends to E for the node list `nodes`, written the
   * way its loop builds it: the edges of all but the last node, then the
   * edge into the last node, labelled by the variation at its position or
   * by "M" when the variations have run out.
   */
  function Link(nodes: seq<Node>, variations: seq<string>): seq<Edge>
    decreases |nodes|
  {
    if |nodes| <= 1 then []
    else
      var i := |nodes| - 1;
      var variationType := if i - 1 < |variations| then variations[i - 1] else PlainMatch;
      Link(nodes[..i], variations) + [Edge(nodes[i - 1].id, nodes[i].id, JoinCigar, variationType)]
  }

  /**
   * One edge per consecutive pair of nodes: edge k runs from node k to
   * node k + 1, carries "0M", and its label is variations[k] if there is
   * one and "M" otherwise.
   */
  lemma {:induction false} LinkShape(nodes: seq<Node>, variations: seq<string>)
    ensures |Link(nodes, variations)| == if nodes == [] then 0 else |nodes| - 1
    ensures forall k :: 0 <= k < |Link(nodes, variations)| ==>
      Link(nodes, variations)[k] ==
        Edge(nodes[k].id, nodes[k + 1].id, "0M", if k < |variations| then variations[k] else "M")
    decreases |nodes|
  {
    if |nodes| > 1 {
      var i := |nodes| - 1;
      LinkShape(nodes[..i], variations);
    }
  }

  /** Variations beyond the last edge are never read. */
  lemma SurplusVariationsIgnored(nodes: seq<Node>, variations: seq<string>, surplus: seq<string>)
    requires |variations| >= |nodes| - 1
    ensures Link(nodes, variations + surplus) == Link(nodes, variations)
  {
    LinkShape(nodes, variations);
    LinkShape(nodes, variations + surplus);
    var longer, exact := Link(nodes, variations + surplus), Link(nodes, variations);
    forall k | 0 <= k < |exact|
      ensures longer[k] == exact[k]
    {
      assert (variations + surplus)[k] == variations[k];
    }
  }

  /**
   * The graph built from a non-empty sequence: its labels spell the
   * sequence, its nodes are numbered 1..|V|, and its edges chain node k to
   * node k + 1 for every k, all with "0M".
   */
  lemma GraphShape(s: string, bps: seq<int>, variations: seq<string>)
    requires s != []
    ensures var nodes := Segment(s, bps);
      var edges := Link(nodes, variations);
      && Labels(nodes) == s
      && (forall k :: 0 <= k < |nodes| ==> nodes[k].id == k + 1)
      && |edges| == |nodes| - 1
      && (forall k :: 0 <= k < |edges| ==>
            edges[k].fromNode == k + 1 && edges[k].toNode == k + 2 && edges[k].cigar == "0M")
  {
    var nodes := Segment(s, bps);
    SegmentLabels(s, bps);
    SegmentIds(s, bps);
    LinkShape(nodes, variations);
    assert nodes != [];
    var edges := Link(nodes, variations);
    forall k | 0 <= k < |edges|
      ensures edges[k].fromNode == k + 1 && edges[k].toNode == k + 2 && edges[k].cigar == "0M"
    {
      assert nodes[k].id == k + 1 && nodes[k + 1].id == k + 2;
      assert edges[k] == Edge(nodes[k].id, nodes[k + 1].id, "0M", if k < |variations| then variations[k] else "M");
    }
  }

  // ---------------------------------------------------------------------
  // The graph: the globals V and E
  // ---------------------------------------------------------------------

  class VariationGraph {
    /** V: the node list. */
    var nodes: seq<Node>
    /** E: the edge list. */
    var edges: seq<Edge>

    /** Both lists start empty. */
    constructor ()
      ensures nodes == [] && edges == []
    {
      nodes := [];
      edges := [];
    }

    /** process_sequence: the sweep appends its nodes to V. */
    method ProcessSequence(sequence: string, breakpoints: seq<int>)
      modifies this
      ensures nodes == old(nodes) + Segment(sequence, breakpoints)
      ensures edges == old(edges)
    {
      var nodeId := 1;
      var prev: nat := 0;
      for i := 0 to |breakpoints|
        invariant nodes + SegmentFrom(sequence, breakpoints[i..], prev, nodeId) ==
                  old(nodes) + Segment(sequence, breakpoints)
        invariant edges == old(edges)
      {
        assert breakpoints[i..][1..] == breakpoints[i + 1..];
        var bp := breakpoints[i];
        if bp > prev {
          nodes := nodes + [Node(nodeId, Slice(sequence, prev, bp))];
          nodeId := nodeId + 1;
          prev := bp;
        }
      }
      if prev < |sequence| {
        nodes := nodes + [Node(nodeId, sequence[prev..])];
      }
    }

    /** create_edges: one edge per consecutive pair of V, appended to E; V is unchanged. */
    method CreateEdges(variations: seq<string>)
      modifies this
      ensures nodes == old(nodes)
      ensures edges == old(edges) + Link(nodes, variations)
    {
      var i := 1;
      while i < |nodes|
        invariant 1 <= i
        invariant nodes == old(nodes)
        invariant i <= |nodes| ==> edges == old(edges) + Link(nodes[..i], variations)
        invariant i > |nodes| ==> edges == old(edges) && |nodes| == 0
      {
        var variationType := if i - 1 < |variations| then variations[i - 1] else PlainMatch;
        edges := edges + [Edge(nodes[i - 1].id, nodes[i].id, JoinCigar, variationType)];
        assert nodes[..i + 1][..i] == nodes[..i];
        i := i + 1;
      }
      assert i <= |nodes| ==> nodes[..i] == nodes;
    }
  }
}
