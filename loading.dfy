/** `load_data` (app_visual.py lines 10-20) once the CSV file is in memory: keep
    the rows judged a match, then keep only the rows of the first `n` distinct
    job titles. */
module Loading {
  import opened Seqs
  import opened Table

  /** The `llm_evaluation` value of the rows that are kept. */
  const MatchVerdict: string := "MATCH"

  /** The mask `df['llm_evaluation'] == 'MATCH'`. */
  predicate IsMatch(r: Row) {
    r.evaluation == MatchVerdict
  }

  /** `df[df['llm_evaluation'] == 'MATCH']`. */
  function MatchRows(rows: seq<Row>): (matched: seq<Row>)
    ensures forall r :: r in matched <==> r in rows && r.evaluation == MatchVerdict
  {
    Keep(rows, IsMatch)
  }

  /** `df['parsed_jt'].drop_duplicates().head(n)`: the first `n` distinct job
      titles in row order. */
  function JobSubset(matched: seq<Row>, n: nat): (jobs: seq<string>)
    ensures Distinct(jobs)
    ensures |jobs| == if n <= |Dedup(Jobs(matched))| then n else |Dedup(Jobs(matched))|
    ensures forall j :: j in jobs ==> j in Jobs(matched)
  {
    var jobs := Take(Dedup(Jobs(matched)), n);
    assert forall j :: j in jobs ==> j in Dedup(Jobs(matched));
    jobs
  }

  /** The table `load_data(n)` returns, as rows. */
  function LoadRows(rows: seq<Row>, n: nat): (loaded: seq<Row>)
    ensures |loaded| <= |rows|
    ensures forall r :: r in loaded <==>
      r in rows && r.evaluation == MatchVerdict && r.job in JobSubset(MatchRows(rows), n)
  {
    var matched := MatchRows(rows);
    var subset := JobSubset(matched, n);
    Keep(matched, (r: Row) => r.job in subset)
  }

  /** What `load_data` promises: the surviving rows are, in their original
      order, exactly the rows judged a match whose job is one of the first `n`
      distinct matched jobs, and their distinct jobs are exactly those first
      `min(n, #distinct)` jobs, in first-seen order. */
  lemma LoadRowsSpec(rows: seq<Row>, n: nat)
    ensures IsSubsequence(LoadRows(rows, n), rows)
    ensures forall r :: r in LoadRows(rows, n) <==>
      r in rows && r.evaluation == MatchVerdict && r.job in Take(Dedup(Jobs(MatchRows(rows))), n)
    ensures Dedup(Jobs(LoadRows(rows, n))) == Take(Dedup(Jobs(MatchRows(rows))), n)
    ensures LoadRows(rows, n) == Keep(rows, (r: Row) =>
      r.evaluation == MatchVerdict && r.job in Take(Dedup(Jobs(MatchRows(rows))), n))
  {
    var matched := MatchRows(rows);
    var subset := JobSubset(matched, n);
    var inSubset := (r: Row) => r.job in subset;
    var jobInSubset := (j: string) => j in subset;
    KeepIsSubsequence(rows, IsMatch);
    KeepIsSubsequence(matched, inSubset);
    SubsequenceTransitive(LoadRows(rows, n), matched, rows);
    JobsKeep(matched, inSubset, jobInSubset);
    DedupKeep(Jobs(matched), jobInSubset);
    KeepMembersOfTake(Dedup(Jobs(matched)), n, jobInSubset);
    KeepKeep(rows, IsMatch, inSubset, (r: Row) =>
      r.evaluation == MatchVerdict && r.job in Take(Dedup(Jobs(MatchRows(rows))), n));
  }
}
