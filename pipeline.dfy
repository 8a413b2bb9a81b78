/** The script end to end (app_visual.py lines 24-100): load the table with a
    job limit, apply the user's filters, build the node and edge lists. */
module Pipeline {
  import opened Seqs
  import opened Table
  import opened Loading
  import opened Filters
  import opened Graph
  import opened GraphFacts

  /** The rows the graph is drawn from. */
  function Shown(table: seq<Row>, n: nat, sel: Selection): seq<Row> {
    Keep(LoadRows(table, n), AdmitsMask(sel))
  }

  /** Lines 24-100: `load_data(n)`, then the filter chain, then the pass that
      builds the nodes and edges handed to the graph widget. */
  method Render(table: seq<Row>, n: nat, sel: Selection) returns (nodes: seq<Node>, edges: seq<Edge>)
    ensures nodes == JobNodes(Shown(table, n, sel)) + CertNodes(Shown(table, n, sel))
    ensures edges == EdgesOf(Shown(table, n, sel))
  {
    var df := LoadRows(table, n);
    var filtered := ApplyFilters(df, sel);
    nodes, edges := BuildGraph(filtered);
  }

  /** The job limit is a bound on the drawn job nodes: whatever the filters,
      there are at most `n` of them, each one of the first `n` distinct job
      titles among the rows judged a match. */
  lemma AtMostNJobNodes(table: seq<Row>, n: nat, sel: Selection)
    ensures |JobNodes(Shown(table, n, sel))| <= n
    ensures forall j :: j in Ids(JobNodes(Shown(table, n, sel))) ==> j in Take(Dedup(Jobs(MatchRows(table))), n)
  {
    var shown := Shown(table, n, sel);
    var first := Take(Dedup(Jobs(MatchRows(table))), n);
    JobNodeKeys(shown);
    LoadRowsSpec(table, n);
    forall j | j in Ids(JobNodes(shown)) ensures j in first {
      var r :| r in shown && r.job == j;
      assert r in LoadRows(table, n);
    }
    DistinctLength(Ids(JobNodes(shown)), first);
  }
}
