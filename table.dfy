/** One row of the job/certification table the script works on. */
module Table {
  import opened Seqs

  /** A row of the CSV file: the parsed job title (`parsed_jt`), the raw
      semicolon-separated certification field (`certification`, later copied to
      `certification_names`), the precomputed `cluster_label`, the `seniority`
      and the `llm_evaluation` verdict. */
  datatype Row = Row(job: string, certs: string, cluster: string, seniority: string, evaluation: string)

  /** The job column, in row order (`df['parsed_jt']`). */
  function Jobs(rows: seq<Row>): (js: seq<string>)
    ensures |js| == |rows|
    ensures forall i :: 0 <= i < |rows| ==> js[i] == rows[i].job
  {
    seq(|rows|, i requires 0 <= i < |rows| => rows[i].job)
  }

  lemma JobsSnoc(rows: seq<Row>, r: Row)
    ensures Jobs(rows + [r]) == Jobs(rows) + [r.job]
  {
  }

  /** A row mask that only looks at the job column selects the same jobs as the
      corresponding mask on the job column itself. */
  lemma {:induction false} JobsKeep(rows: seq<Row>, p: Row -> bool, q: string -> bool)
    requires forall r :: r in rows ==> p(r) == q(r.job)
    ensures Jobs(Keep(rows, p)) == Keep(Jobs(rows), q)
  {
    if rows != [] {
      var r0, r := rows[..|rows| - 1], rows[|rows| - 1];
      assert rows == r0 + [r];
      JobsKeep(r0, p, q);
      KeepSnoc(r0, r, p);
      JobsSnoc(r0, r);
      KeepSnoc(Jobs(r0), r.job, q);
      if p(r) {
        JobsSnoc(Keep(r0, p), r);
      } else {
        assert Keep(rows, p) == Keep(r0, p);
      }
    }
  }
}
