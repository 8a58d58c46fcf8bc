/**
 * The conversion main performs between reading its inputs and writing the
 * GFA file (x.py, main): stop on an empty sequence, collect the
 * alignment lines, normalise the breakpoints, build the nodes, then the
 * edges. The sequence and the alignment lines are parameters; reading and
 * writing files is not modelled.
 */
module Pipeline {
  import opened PafRecord
  import opened PafReader
  import opened Breakpoints
  import opened Graph

  /** How a run ends. */
  datatype Outcome =
    | EmptySequence                                  // `if not sequence: return`
    | ParseFailure(error: ParseError)                // the ValueError escaping read_paf
    | Built(nodes: seq<Node>, edges: seq<Edge>)      // V and E as output_gfa would write them

  /**
   * The graph part of main: normalise the breakpoints, then run
   * process_sequence and create_edges on fresh lists V and E.
   */
  method BuildGraph(sequence: string, collected: Collected) returns (nodes: seq<Node>, edges: seq<Edge>)
    requires sequence != []
    ensures nodes == Segment(sequence, Normalize(collected.breakpoints))
    ensures edges == Link(nodes, collected.variations)
    ensures Labels(nodes) == sequence
    ensures forall k :: 0 <= k < |nodes| ==> nodes[k].id == k + 1
    ensures |edges| == |nodes| - 1
    ensures forall k :: 0 <= k < |edges| ==>
      edges[k].fromNode == k + 1 && edges[k].toNode == k + 2 && edges[k].cigar == "0M"
  {
    var breakpoints := Normalize(collected.breakpoints);
    var graph := new VariationGraph();
    graph.ProcessSequence(sequence, breakpoints);
    graph.CreateEdges(collected.variations);
    GraphShape(sequence, breakpoints, collected.variations);
    nodes, edges := graph.nodes, graph.edges;
  }

  /** main without its file reading and writing. */
  method Run(sequence: string, pafLines: seq<string>) returns (out: Outcome)
    ensures sequence == [] <==> out == EmptySequence
    ensures sequence != [] && Collect(pafLines).Err? ==> out == ParseFailure(Collect(pafLines).error)
    ensures sequence != [] && Collect(pafLines).Ok? ==>
      var nodes := Segment(sequence, Normalize(Collect(pafLines).value.breakpoints));
      out == Built(nodes, Link(nodes, Collect(pafLines).value.variations))
    ensures out.Built? ==>
      && Labels(out.nodes) == sequence
      && (forall k :: 0 <= k < |out.nodes| ==> out.nodes[k].id == k + 1)
      && |out.edges| == |out.nodes| - 1
      && (forall k :: 0 <= k < |out.edges| ==>
            out.edges[k].fromNode == k + 1 && out.edges[k].toNode == k + 2 && out.edges[k].cigar == "0M")
  {
    if sequence == [] {
      return EmptySequence;
    }
    var collected := ReadPaf(pafLines);
    if collected.Err? {
      return ParseFailure(collected.error);
    }
    var nodes, edges := BuildGraph(sequence, collected.value);
    out := Built(nodes, edges);
  }
}
