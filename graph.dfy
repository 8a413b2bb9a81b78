/** The node and edge lists handed to the graph widget (app_visual.py lines
    79-100): one pass over the filtered rows fills two insertion-ordered
    dictionaries, `job_nodes` and `cert_nodes`, where the first occurrence of a
    key wins, and appends one edge per (row, certificate) pair. */
module Graph {
  import opened Seqs
  import opened Table
  import opened Certs

  /** The widget's `Node(id, label, size, color)`; `label` is a reserved word here, so the
      field is called `caption`. */
  datatype Node = Node(id: string, caption: string, size: nat, color: string)

  /** The widget's `Edge(source, target)`: from a job title to a certificate. */
  datatype Edge = Edge(source: string, target: string)

  const JobNodeSize: nat := 25
  const CertNodeSize: nat := 20
  const CertColor: string := "blue"
  /** The colour of a job whose cluster label has no palette entry. */
  const FallbackColor: string := "gray"

  /** `cluster_palette` (lines 45-56): one colour per known cluster label. */
  const Palette: map<string, string> := map[
    "Skilled Trades & Technicians" := "#A259FF",
    "Healthcare Professionals" := "#F94144",
    "Education Professionals" := "#43AA8B",
    "Allied Health & Biomedical" := "#577590",
    "Construction and Facilities" := "#F3722C",
    "Certified Nursing Assistants" := "#FFB703",
    "Athletics/Sports Staff" := "#3A86FF",
    "Behavioral Health Specialists" := "#F8961E",
    "Community & Recreation Services" := "#277DA1",
    "Nursing & Healthcare" := "#90BE6D"
  ]

  /** `cluster_palette.get(cluster_label, "gray")` (line 87). No palette colour
      is "gray", so a job is drawn gray exactly when its cluster label is not
      in the palette. */
  function JobColor(cluster: string): (color: string)
    ensures cluster in Palette ==> color in Palette.Values
    ensures color == FallbackColor <==> cluster !in Palette
    ensures cluster in Palette ==> color == Palette[cluster]
  {
    assert FallbackColor !in Palette.Values;
    if cluster in Palette then Palette[cluster] else FallbackColor
  }

  /** `f"{job}\n({cluster_label}, {seniority})"` (line 91): the job title on
      the first line, then the cluster and seniority in parentheses. */
  function JobLabel(r: Row): (text: string)
    ensures |text| == |r.job| + |r.cluster| + |r.seniority| + 5
    ensures text[..|r.job|] == r.job
    ensures text[|r.job|..|r.job| + 2] == "\n("
    ensures text[|r.job| + 2..|r.job| + 2 + |r.cluster|] == r.cluster
    ensures text[|r.job| + 2 + |r.cluster|..|r.job| + 4 + |r.cluster|] == ", "
    ensures text[|text| - |r.seniority| - 1..|text| - 1] == r.seniority
    ensures text[|text| - 1] == ')'
  {
    r.job + "\n(" + r.cluster + ", " + r.seniority + ")"
  }

  /** The node a row creates for its job (lines 89-94): its id is the job
      title, its label starts with that title, it is drawn larger than a
      certificate node, and it is gray exactly when its cluster has no colour. */
  function JobNode(r: Row): (n: Node)
    ensures n.id == r.job
    ensures |n.caption| > |r.job| && n.caption[..|r.job|] == r.job
    ensures n.size > CertNodeSize
    ensures n.color == FallbackColor <==> r.cluster !in Palette
  {
    Node(r.job, JobLabel(r), JobNodeSize, JobColor(r.cluster))
  }

  /** The node a certificate gets (line 97): id and label are the certificate,
      and its colour is never one a job node can get. */
  function CertNode(cert: string): (n: Node)
    ensures n.id == cert && n.caption == cert
    ensures n.size < JobNodeSize
    ensures n.color !in Palette.Values && n.color != FallbackColor
  {
    Node(cert, cert, CertNodeSize, CertColor)
  }

  /** The edges of one job to a list of certificates, in order. */
  function EdgesFrom(job: string, certs: seq<string>): (es: seq<Edge>)
    ensures |es| == |certs|
    ensures forall i :: 0 <= i < |certs| ==> es[i] == Edge(job, certs[i])
  {
    seq(|certs|, i requires 0 <= i < |certs| => Edge(job, certs[i]))
  }

  // ---------------------------------------------------------------------------
  // What the pass computes, stated on the whole table

  /** The job titles in first-seen order: the keys of `job_nodes`. */
  function DistinctJobs(rows: seq<Row>): seq<string> {
    Dedup(Jobs(rows))
  }

  /** Every certificate of every row, in row order, duplicates included. */
  function AllCerts(rows: seq<Row>): seq<string> {
    if rows == [] then []
    else AllCerts(rows[..|rows| - 1]) + SplitCerts(rows[|rows| - 1].certs)
  }

  /** The certificates in first-seen order: the keys of `cert_nodes`. */
  function DistinctCerts(rows: seq<Row>): seq<string> {
    Dedup(AllCerts(rows))
  }

  /** The first row with the given job title. */
  function FirstRowOf(rows: seq<Row>, job: string): (r: Row)
    requires job in Jobs(rows)
  {
    rows[IndexOf(Jobs(rows), job)]
  }

  /** The job nodes in first-seen order, each built from the first row with its job. */
  function JobNodes(rows: seq<Row>): seq<Node> {
    var jobs := DistinctJobs(rows);
    seq(|jobs|, i requires 0 <= i < |jobs| => JobNode(FirstRowOf(rows, jobs[i])))
  }

  /** The certificate nodes in first-seen order. */
  function CertNodes(rows: seq<Row>): seq<Node> {
    var certs := DistinctCerts(rows);
    seq(|certs|, i requires 0 <= i < |certs| => CertNode(certs[i]))
  }

  /** One edge per (row, certificate), in row order. */
  function EdgesOf(rows: seq<Row>): seq<Edge> {
    if rows == [] then []
    else EdgesOf(rows[..|rows| - 1]) + EdgesFrom(rows[|rows| - 1].job, SplitCerts(rows[|rows| - 1].certs))
  }

  /** The number of certificates over all rows. */
  function CertCount(rows: seq<Row>): nat {
    if rows == [] then 0
    else CertCount(rows[..|rows| - 1]) + |SplitCerts(rows[|rows| - 1].certs)|
  }

  // ---------------------------------------------------------------------------
  // Insertion-ordered dictionaries

  /** A Python dict from strings to nodes: its entries and the order in which
      its keys were first inserted (the order `d.values()` follows). */
  datatype Dict = Dict(entries: map<string, Node>, order: seq<string>)

  const EmptyDict := Dict(map[], [])

  /** `if key not in d: d[key] = value`. An existing entry is never
      overwritten and the insertion order only grows; a new key is added last
      with the given value. */
  function AddIfAbsent(d: Dict, key: string, value: Node): (added: Dict)
    ensures added.entries.Keys == d.entries.Keys + {key}
    ensures forall k :: k in d.entries ==> added.entries[k] == d.entries[k]
    ensures key in d.entries ==> added.order == d.order
    ensures key !in d.entries ==> added.entries[key] == value && added.order == d.order + [key]
  {
    if key in d.entries then d else Dict(d.entries[key := value], d.order + [key])
  }

  /** `job_nodes` after the loop has seen the given rows (lines 88-94). */
  function JobDict(rows: seq<Row>): Dict {
    if rows == [] then EmptyDict
    else
      var r := rows[|rows| - 1];
      AddIfAbsent(JobDict(rows[..|rows| - 1]), r.job, JobNode(r))
  }

  /** `cert_nodes` after the loop has seen the given certificates (lines 96-97). */
  function CertDict(certs: seq<string>): Dict {
    if certs == [] then EmptyDict
    else
      var c := certs[|certs| - 1];
      AddIfAbsent(CertDict(certs[..|certs| - 1]), c, CertNode(c))
  }

  /** `list(d.values())` for a dict whose keys were inserted in the order `keys`. */
  function ValuesInOrder(keys: seq<string>, d: map<string, Node>): (vs: seq<Node>)
    requires forall k :: k in keys ==> k in d
    ensures |vs| == |keys|
    ensures forall i :: 0 <= i < |keys| ==> vs[i] == d[keys[i]]
  {
    seq(|keys|, i requires 0 <= i < |keys| => d[keys[i]])
  }

  lemma AllCertsSnoc(rows: seq<Row>, r: Row)
    ensures AllCerts(rows + [r]) == AllCerts(rows) + SplitCerts(r.certs)
    ensures EdgesOf(rows + [r]) == EdgesOf(rows) + EdgesFrom(r.job, SplitCerts(r.certs))
  {
    assert (rows + [r])[..|rows|] == rows;
  }

  lemma FirstRowOfSnoc(rows: seq<Row>, r: Row, job: string)
    requires job in Jobs(rows + [r])
    ensures job in Jobs(rows) ==> FirstRowOf(rows + [r], job) == FirstRowOf(rows, job)
    ensures job !in Jobs(rows) ==> FirstRowOf(rows + [r], job) == r
  {
    JobsSnoc(rows, r);
    IndexOfAppend(Jobs(rows), [r.job], job);
  }

  /** What `job_nodes` holds after the given rows: one key per distinct job, in
      first-seen order, mapped to the node built from the first row with it. */
  ghost predicate JobDictAfter(rows: seq<Row>, d: Dict) {
    && d.order == DistinctJobs(rows)
    && (forall j :: j in d.entries <==> j in d.order)
    && (forall j :: j in d.entries ==> j in Jobs(rows) && d.entries[j] == JobNode(FirstRowOf(rows, j)))
  }

  /** What `cert_nodes` holds after the given certificates: one key per
      distinct certificate, in first-seen order, mapped to its node. */
  ghost predicate CertDictAfter(certs: seq<string>, d: Dict) {
    && d.order == Dedup(certs)
    && (forall c :: c in d.entries <==> c in d.order)
    && (forall c :: c in d.entries ==> d.entries[c] == CertNode(c))
  }

  /** A job seen before leaves `job_nodes` as it is... */
  lemma JobDictKeep(rows: seq<Row>, r: Row, d: Dict)
    requires JobDictAfter(rows, d)
    requires r.job in d.entries
    ensures JobDictAfter(rows + [r], d)
  {
    JobsSnoc(rows, r);
    DedupSnoc(Jobs(rows), r.job);
    forall j | j in d.entries ensures j in Jobs(rows + [r]) && FirstRowOf(rows + [r], j) == FirstRowOf(rows, j) {
      FirstRowOfSnoc(rows, r, j);
    }
  }

  /** ... and a new job is added at the end, built from its first row. */
  lemma JobDictInsert(rows: seq<Row>, r: Row, d: Dict)
    requires JobDictAfter(rows, d)
    requires r.job !in d.entries
    ensures JobDictAfter(rows + [r], Dict(d.entries[r.job := JobNode(r)], d.order + [r.job]))
  {
    JobsSnoc(rows, r);
    DedupSnoc(Jobs(rows), r.job);
    var entries := d.entries[r.job := JobNode(r)];
    forall j | j in entries ensures j in Jobs(rows + [r]) && entries[j] == JobNode(FirstRowOf(rows + [r], j)) {
      FirstRowOfSnoc(rows, r, j);
    }
  }

  /** The dict the loop builds for the jobs is the one described by `JobDictAfter`. */
  lemma {:induction false} JobDictCorrect(rows: seq<Row>)
    ensures JobDictAfter(rows, JobDict(rows))
  {
    if rows != [] {
      var r0, r := rows[..|rows| - 1], rows[|rows| - 1];
      assert rows == r0 + [r];
      JobDictCorrect(r0);
      if r.job in JobDict(r0).entries {
        JobDictKeep(r0, r, JobDict(r0));
      } else {
        JobDictInsert(r0, r, JobDict(r0));
      }
    }
  }

  /** The dict the loop builds for the certificates is the one described by
      `CertDictAfter`. */
  lemma {:induction false} CertDictCorrect(certs: seq<string>)
    ensures CertDictAfter(certs, CertDict(certs))
  {
    if certs != [] {
      var c0, c := certs[..|certs| - 1], certs[|certs| - 1];
      assert certs == c0 + [c];
      CertDictCorrect(c0);
      DedupSnoc(c0, c);
    }
  }

  /** Line 100: `list(job_nodes.values()) + list(cert_nodes.values())` is the
      job nodes in first-seen order followed by the certificate nodes in
      first-seen order. */
  lemma NodeListOfDicts(rows: seq<Row>)
    ensures forall k :: k in JobDict(rows).order ==> k in JobDict(rows).entries
    ensures forall k :: k in CertDict(AllCerts(rows)).order ==> k in CertDict(AllCerts(rows)).entries
    ensures ValuesInOrder(JobDict(rows).order, JobDict(rows).entries)
      + ValuesInOrder(CertDict(AllCerts(rows)).order, CertDict(AllCerts(rows)).entries)
      == JobNodes(rows) + CertNodes(rows)
  {
    JobDictCorrect(rows);
    JobValues(rows, JobDict(rows));
    CertDictCorrect(AllCerts(rows));
    CertValues(rows, CertDict(AllCerts(rows)));
  }

  lemma JobValues(rows: seq<Row>, d: Dict)
    requires JobDictAfter(rows, d)
    ensures forall k :: k in d.order ==> k in d.entries
    ensures ValuesInOrder(d.order, d.entries) == JobNodes(rows)
  {
  }

  lemma CertValues(rows: seq<Row>, d: Dict)
    requires CertDictAfter(AllCerts(rows), d)
    ensures forall k :: k in d.order ==> k in d.entries
    ensures ValuesInOrder(d.order, d.entries) == CertNodes(rows)
  {
    var vs := ValuesInOrder(d.order, d.entries);
    forall i | 0 <= i < |vs| ensures vs[i] == CertNodes(rows)[i] {
      assert d.order[i] in d.entries;
    }
  }

  /** One step of the outer loop: the state after row `i` is the state after
      the rows before it, extended by row `i`. */
  lemma RowStep(rows: seq<Row>, i: nat)
    requires i < |rows|
    ensures JobDict(rows[..i + 1]) == AddIfAbsent(JobDict(rows[..i]), rows[i].job, JobNode(rows[i]))
    ensures AllCerts(rows[..i + 1]) == AllCerts(rows[..i]) + SplitCerts(rows[i].certs)
    ensures EdgesOf(rows[..i + 1]) == EdgesOf(rows[..i]) + EdgesFrom(rows[i].job, SplitCerts(rows[i].certs))
  {
    assert rows[..i + 1][..i] == rows[..i];
  }

  /** One step of the inner loop, over the certificates of one row. */
  lemma CertStep(seen: seq<string>, certs: seq<string>, job: string, k: nat)
    requires k < |certs|
    ensures CertDict(seen + certs[..k + 1]) == AddIfAbsent(CertDict(seen + certs[..k]), certs[k], CertNode(certs[k]))
    ensures EdgesFrom(job, certs[..k + 1]) == EdgesFrom(job, certs[..k]) + [Edge(job, certs[k])]
  {
    var t := seen + certs[..k + 1];
    assert t[..|t| - 1] == seen + certs[..k];
    assert t[|t| - 1] == certs[k];
    EdgeStep(certs, job, k);
  }

  lemma EdgeStep(certs: seq<string>, job: string, k: nat)
    requires k < |certs|
    ensures EdgesFrom(job, certs[..k + 1]) == EdgesFrom(job, certs[..k]) + [Edge(job, certs[k])]
  {
    var es, es0 := EdgesFrom(job, certs[..k + 1]), EdgesFrom(job, certs[..k]) + [Edge(job, certs[k])];
    forall i | 0 <= i < |es| ensures es[i] == es0[i] {
    }
  }


  /** Before the inner loop: no certificate of the row processed yet. */
  lemma CertStart(seen: seq<string>, certs: seq<string>, job: string)
    ensures CertDict(seen + certs[..0]) == CertDict(seen)
    ensures EdgesFrom(job, certs[..0]) == []
  {
    assert seen + certs[..0] == seen;
  }

  // ---------------------------------------------------------------------------
  // The pass itself

  /** Lines 79-100. The loop over the filtered rows: the job of each row gets a
      node unless an earlier row gave it one, each certificate of the row gets a
      node unless it already has one, and every (row, certificate) pair adds an
      edge. The result is the job nodes in first-seen order followed by the
      certificate nodes in first-seen order, and one edge per (row,
      certificate), duplicates included. */
  method BuildGraph(rows: seq<Row>) returns (nodes: seq<Node>, edges: seq<Edge>)
    ensures nodes == JobNodes(rows) + CertNodes(rows)
    ensures edges == EdgesOf(rows)
  {
    var jobNodes: map<string, Node> := map[];
    var jobOrder: seq<string> := [];
    var certNodes: map<string, Node> := map[];
    var certOrder: seq<string> := [];
    edges := [];
    for i := 0 to |rows|
      invariant Dict(jobNodes, jobOrder) == JobDict(rows[..i])
      invariant Dict(certNodes, certOrder) == CertDict(AllCerts(rows[..i]))
      invariant edges == EdgesOf(rows[..i])
    {
      var row := rows[i];
      var job := row.job;
      var certs := SplitCerts(row.certs);
      RowStep(rows, i);
      if job !in jobNodes {
        jobNodes := jobNodes[job := JobNode(row)];
        jobOrder := jobOrder + [job];
      }
      ghost var seen := AllCerts(rows[..i]);
      ghost var edgesBefore := edges;
      CertStart(seen, certs, job);
      AppendEmpty(edges);
      for k := 0 to |certs|
        invariant Dict(certNodes, certOrder) == CertDict(seen + certs[..k])
        invariant edges == edgesBefore + EdgesFrom(job, certs[..k])
      {
        var cert := certs[k];
        CertStep(seen, certs, job, k);
        AppendAssoc(edgesBefore, EdgesFrom(job, certs[..k]), [Edge(job, cert)]);
        if cert !in certNodes {
          certNodes := certNodes[cert := CertNode(cert)];
          certOrder := certOrder + [cert];
        }
        edges := edges + [Edge(job, cert)];
      }
      WholePrefix(certs);
    }
    WholePrefix(rows);
    NodeListOfDicts(rows);
    nodes := ValuesInOrder(jobOrder, jobNodes) + ValuesInOrder(certOrder, certNodes);
  }
}
