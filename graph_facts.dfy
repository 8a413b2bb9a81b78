/** What the node and edge lists of app_visual.py lines 79-100 amount to: one
    node per distinct job and per distinct certificate, the first row of a job
    deciding its node, and one edge per (row, certificate) with duplicates kept. */
module GraphFacts {
  import opened Seqs
  import opened Text
  import opened Table
  import opened Certs
  import opened Filters
  import opened Graph

  /** The ids of a node list, in order. */
  function Ids(nodes: seq<Node>): (ids: seq<string>)
    ensures |ids| == |nodes|
    ensures forall i :: 0 <= i < |nodes| ==> ids[i] == nodes[i].id
  {
    seq(|nodes|, i requires 0 <= i < |nodes| => nodes[i].id)
  }

  lemma JobsAppend(a: seq<Row>, b: seq<Row>)
    ensures Jobs(a + b) == Jobs(a) + Jobs(b)
  {
  }

  /** A job title appears in the job column exactly when some row has it. */
  lemma InJobs(rows: seq<Row>, j: string)
    ensures j in Jobs(rows) <==> exists r :: r in rows && r.job == j
  {
    if j in Jobs(rows) {
      var k := IndexOf(Jobs(rows), j);
      assert rows[k] in rows;
    }
    if exists r :: r in rows && r.job == j {
      var r :| r in rows && r.job == j;
      var k :| 0 <= k < |rows| && rows[k] == r;
      assert Jobs(rows)[k] == j;
    }
  }

  /** `job_nodes` has one key per distinct job title, in first-seen order,
      and no other key. */
  lemma JobNodeKeys(rows: seq<Row>)
    ensures Ids(JobNodes(rows)) == DistinctJobs(rows)
    ensures Distinct(Ids(JobNodes(rows)))
    ensures forall j :: j in Ids(JobNodes(rows)) <==> exists r :: r in rows && r.job == j
  {
    var jobs := DistinctJobs(rows);
    forall i | 0 <= i < |jobs| ensures JobNodes(rows)[i].id == jobs[i] {
      var k := IndexOf(Jobs(rows), jobs[i]);
      assert rows[k].job == Jobs(rows)[k];
    }
    assert Ids(JobNodes(rows)) == jobs;
    forall j ensures j in jobs <==> exists r :: r in rows && r.job == j {
      InJobs(rows, j);
    }
  }

  /** First seen wins: the node of a job is built from the first row with that
      job, whatever cluster and seniority later rows with the same job carry. */
  lemma FirstRowWins(rows: seq<Row>, k: nat)
    requires k < |rows|
    requires forall m :: 0 <= m < k ==> rows[m].job != rows[k].job
    ensures JobNode(rows[k]) in JobNodes(rows)
    ensures forall n :: n in JobNodes(rows) && n.id == rows[k].job ==> n == JobNode(rows[k])
  {
    var j := rows[k].job;
    var js := Jobs(rows);
    assert js[k] == j;
    var first := IndexOf(js, j);
    assert rows[first].job == js[first];
    assert first == k;
    assert FirstRowOf(rows, j) == rows[k];
    var jobs := DistinctJobs(rows);
    assert j in jobs;
    var i :| 0 <= i < |jobs| && jobs[i] == j;
    assert JobNodes(rows)[i] == JobNode(rows[k]);
    forall n | n in JobNodes(rows) && n.id == j ensures n == JobNode(rows[k]) {
      var m :| 0 <= m < |JobNodes(rows)| && JobNodes(rows)[m] == n;
      assert FirstRowOf(rows, jobs[m]).job == jobs[m] by {
        var x := IndexOf(js, jobs[m]);
        assert rows[x].job == js[x];
      }
    }
  }

  /** Rows processed later never change the job nodes already created: the
      job nodes of a table extended with more rows begin with the job nodes of
      the table. */
  lemma JobNodesPrefix(rows: seq<Row>, later: seq<Row>)
    ensures |JobNodes(rows)| <= |JobNodes(rows + later)|
    ensures JobNodes(rows + later)[..|JobNodes(rows)|] == JobNodes(rows)
  {
    JobsAppend(rows, later);
    DedupAppend(Jobs(rows), Jobs(later));
    var jobs := DistinctJobs(rows);
    forall i | 0 <= i < |jobs|
      ensures JobNodes(rows + later)[i] == JobNodes(rows)[i]
    {
      assert DistinctJobs(rows + later)[i] == jobs[i];
      IndexOfAppend(Jobs(rows), Jobs(later), jobs[i]);
      assert (rows + later)[IndexOf(Jobs(rows), jobs[i])] == rows[IndexOf(Jobs(rows), jobs[i])];
    }
  }

  /** The job nodes come in the order in which their jobs first appear. */
  lemma JobNodesFirstSeenOrder(rows: seq<Row>, i: nat, j: nat)
    requires i < j < |JobNodes(rows)|
    ensures JobNodes(rows)[i].id in Jobs(rows) && JobNodes(rows)[j].id in Jobs(rows)
    ensures IndexOf(Jobs(rows), JobNodes(rows)[i].id) < IndexOf(Jobs(rows), JobNodes(rows)[j].id)
  {
    JobNodeKeys(rows);
    DedupFirstSeenOrder(Jobs(rows), i, j);
  }

  /** A certificate is among all certificates exactly when some row lists it. */
  lemma {:induction false} InAllCerts(rows: seq<Row>, c: string)
    ensures c in AllCerts(rows) <==> exists r :: r in rows && c in SplitCerts(r.certs)
  {
    if rows != [] {
      var r0, r := rows[..|rows| - 1], rows[|rows| - 1];
      assert rows == r0 + [r];
      AllCertsSnoc(r0, r);
      InAllCerts(r0, c);
      if exists x :: x in r0 && c in SplitCerts(x.certs) {
        var x :| x in r0 && c in SplitCerts(x.certs);
        assert x in rows;
      }
      if exists x :: x in rows && c in SplitCerts(x.certs) {
        var x :| x in rows && c in SplitCerts(x.certs);
        if x != r {
          assert x in r0;
        }
      }
    }
  }

  /** `cert_nodes` has one key per distinct certificate, in first-seen order,
      and no other key; every key is non-empty, has no whitespace at either end
      and holds no separator, and its node is the certificate's own node. */
  lemma CertNodeKeys(rows: seq<Row>)
    ensures Ids(CertNodes(rows)) == DistinctCerts(rows)
    ensures Distinct(Ids(CertNodes(rows)))
    ensures forall c :: c in Ids(CertNodes(rows)) <==> exists r :: r in rows && c in SplitCerts(r.certs)
    ensures forall n :: n in CertNodes(rows) ==>
      && n == CertNode(n.id)
      && n.id != [] && !IsSpace(n.id[0]) && !IsSpace(n.id[|n.id| - 1]) && Separator !in n.id
  {
    var certs := DistinctCerts(rows);
    assert Ids(CertNodes(rows)) == certs;
    forall c ensures c in certs <==> exists r :: r in rows && c in SplitCerts(r.certs) {
      InAllCerts(rows, c);
    }
    forall n | n in CertNodes(rows)
      ensures n.id != [] && !IsSpace(n.id[0]) && !IsSpace(n.id[|n.id| - 1]) && Separator !in n.id
    {
      assert n.id in certs;
      CertNodeWellFormed(rows, n.id);
    }
  }

  /** A certificate listed by some row is well formed. */
  lemma CertNodeWellFormed(rows: seq<Row>, c: string)
    requires c in DistinctCerts(rows)
    ensures c != [] && !IsSpace(c[0]) && !IsSpace(c[|c| - 1]) && Separator !in c
  {
    InAllCerts(rows, c);
    var r :| r in rows && c in SplitCerts(r.certs);
  }

  /** Edges are never merged: the edges of two tables one after the other are
      the edges of the first followed by the edges of the second. */
  lemma {:induction false} EdgesOfAppend(a: seq<Row>, b: seq<Row>)
    ensures EdgesOf(a + b) == EdgesOf(a) + EdgesOf(b)
  {
    if b != [] {
      var b0, r := b[..|b| - 1], b[|b| - 1];
      assert b == b0 + [r];
      assert a + b == (a + b0) + [r];
      EdgesOfAppend(a, b0);
      AllCertsSnoc(a + b0, r);
      AllCertsSnoc(b0, r);
    } else {
      assert a + b == a;
    }
  }

  /** Duplicates are kept: a table given twice has every edge twice. */
  lemma EdgesKeepDuplicates(rows: seq<Row>)
    ensures EdgesOf(rows + rows) == EdgesOf(rows) + EdgesOf(rows)
    ensures |EdgesOf(rows + rows)| == 2 * |EdgesOf(rows)|
  {
    EdgesOfAppend(rows, rows);
  }

  /** One edge per certificate occurrence: edge `i` goes to the `i`-th
      certificate of the table, so there are as many edges as the rows have
      certificates together. */
  lemma {:induction false} EdgesMatchCerts(rows: seq<Row>)
    ensures |EdgesOf(rows)| == |AllCerts(rows)| == CertCount(rows)
    ensures forall i :: 0 <= i < |EdgesOf(rows)| ==> EdgesOf(rows)[i].target == AllCerts(rows)[i]
  {
    if rows != [] {
      var r0, r := rows[..|rows| - 1], rows[|rows| - 1];
      EdgesMatchCerts(r0);
      var e0, c0 := EdgesOf(r0), AllCerts(r0);
      var es, cs := EdgesFrom(r.job, SplitCerts(r.certs)), SplitCerts(r.certs);
      assert EdgesOf(rows) == e0 + es;
      assert AllCerts(rows) == c0 + cs;
      TargetsAppend(e0, es, c0, cs);
    }
  }

  /** Edges whose targets follow a list of certificates, followed by more such
      edges, have targets following the two lists one after the other. */
  lemma TargetsAppend(e0: seq<Edge>, es: seq<Edge>, c0: seq<string>, cs: seq<string>)
    requires |e0| == |c0| && |es| == |cs|
    requires forall i :: 0 <= i < |e0| ==> e0[i].target == c0[i]
    requires forall i :: 0 <= i < |es| ==> es[i].target == cs[i]
    ensures |e0 + es| == |c0 + cs|
    ensures forall i :: 0 <= i < |e0 + es| ==> (e0 + es)[i].target == (c0 + cs)[i]
  {
    forall i | 0 <= i < |e0 + es| ensures (e0 + es)[i].target == (c0 + cs)[i] {
      if i >= |e0| {
        assert (e0 + es)[i] == es[i - |e0|];
        assert (c0 + cs)[i] == cs[i - |c0|];
      }
    }
  }

  /** The edges of one row are exactly the pairs of its job with one of its
      certificates. */
  lemma InEdgesFrom(job: string, certs: seq<string>, e: Edge)
    ensures e in EdgesFrom(job, certs) <==> e.source == job && e.target in certs
  {
    var es := EdgesFrom(job, certs);
    if e in es {
      var i :| 0 <= i < |es| && es[i] == e;
      assert certs[i] == e.target;
    }
    if e.source == job && e.target in certs {
      var i :| 0 <= i < |certs| && certs[i] == e.target;
      assert es[i] == e;
    }
  }

  /** An edge from `job` to `cert` exists exactly when some row has that job
      and lists that certificate. */
  lemma {:induction false} InEdges(rows: seq<Row>, e: Edge)
    ensures e in EdgesOf(rows) <==> exists r :: r in rows && r.job == e.source && e.target in SplitCerts(r.certs)
  {
    if rows != [] {
      var r0, r := rows[..|rows| - 1], rows[|rows| - 1];
      assert rows == r0 + [r];
      InEdges(r0, e);
      InEdgesFrom(r.job, SplitCerts(r.certs), e);
      assert EdgesOf(rows) == EdgesOf(r0) + EdgesFrom(r.job, SplitCerts(r.certs));
      if exists x :: x in r0 && x.job == e.source && e.target in SplitCerts(x.certs) {
        var x :| x in r0 && x.job == e.source && e.target in SplitCerts(x.certs);
        assert x in rows;
      }
      if exists x :: x in rows && x.job == e.source && e.target in SplitCerts(x.certs) {
        var x :| x in rows && x.job == e.source && e.target in SplitCerts(x.certs);
        if x != r {
          assert x in r0;
        }
      }
    }
  }

  /** Every edge joins a job node to a certificate node. */
  lemma EdgeEndpoints(rows: seq<Row>, e: Edge)
    requires e in EdgesOf(rows)
    ensures e.source in Ids(JobNodes(rows))
    ensures e.target in Ids(CertNodes(rows))
  {
    InEdges(rows, e);
    JobNodeKeys(rows);
    CertNodeKeys(rows);
  }

  /** The certification filter keeps whole rows: a certificate of a kept row
      gets its node even when it was not itself selected. */
  lemma KeptRowKeepsAllItsCerts(rows: seq<Row>, sel: Selection, r: Row, c: string)
    requires r in rows && Admits(sel, r)
    requires c in SplitCerts(r.certs)
    ensures c in Ids(CertNodes(Keep(rows, AdmitsMask(sel))))
  {
    var kept := Keep(rows, AdmitsMask(sel));
    assert r in kept;
    CertNodeKeys(kept);
  }
}
