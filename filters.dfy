/** The filter chain of app_visual.py lines 64-76: four independent multiselect
    filters applied one after the other to a copy of the loaded table. */
module Filters {
  import opened Seqs
  import opened Table
  import opened Certs

  /** What the user picked in the four multiselects (lines 39-42). An empty
      list means "no restriction on this axis". */
  datatype Selection = Selection(jobs: seq<string>, certs: seq<string>, clusters: seq<string>, seniority: seq<string>)

  /** Nothing picked anywhere. */
  const NoSelection := Selection([], [], [], [])

  /** Line 66: `filtered_df['parsed_jt'].isin(selected_jobs)`. */
  predicate JobSelected(sel: Selection, r: Row)
    ensures JobSelected(sel, r) ==> sel.jobs != []
  {
    r.job in sel.jobs
  }

  /** Lines 69-70: some piece of the certification field, stripped, is selected. */
  predicate CertSelected(sel: Selection, r: Row)
    ensures CertSelected(sel, r) ==> sel.certs != []
    ensures [] !in sel.certs ==>
      (CertSelected(sel, r) <==> exists c :: c in SplitCerts(r.certs) && c in sel.certs)
  {
    if [] in sel.certs then HasSelectedCert(r.certs, sel.certs)
    else
      HasSelectedCertIffSomeCertSelected(r.certs, sel.certs);
      HasSelectedCert(r.certs, sel.certs)
  }

  /** Line 74: `filtered_df['cluster_label'].isin(selected_clusters)`. */
  predicate ClusterSelected(sel: Selection, r: Row)
    ensures ClusterSelected(sel, r) ==> sel.clusters != []
  {
    r.cluster in sel.clusters
  }

  /** Line 76: `filtered_df['seniority'].isin(selected_seniority)`. */
  predicate SenioritySelected(sel: Selection, r: Row)
    ensures SenioritySelected(sel, r) ==> sel.seniority != []
  {
    r.seniority in sel.seniority
  }

  /** Why every filter sits behind an `if selected_...:` guard (lines 65, 67,
      73 and 75): applied with an empty selection, its mask would drop every
      row instead of leaving the axis unrestricted. */
  lemma UnguardedEmptySelectionDropsAll(rows: seq<Row>, sel: Selection)
    ensures sel.jobs == [] ==> Keep(rows, JobMask(sel)) == []
    ensures sel.certs == [] ==> Keep(rows, CertMask(sel)) == []
    ensures sel.clusters == [] ==> Keep(rows, ClusterMask(sel)) == []
    ensures sel.seniority == [] ==> Keep(rows, SeniorityMask(sel)) == []
  {
    if sel.jobs == [] {
      KeepNone(rows, JobMask(sel));
    }
    if sel.certs == [] {
      KeepNone(rows, CertMask(sel));
    }
    if sel.clusters == [] {
      KeepNone(rows, ClusterMask(sel));
    }
    if sel.seniority == [] {
      KeepNone(rows, SeniorityMask(sel));
    }
  }

  /** The row passes the first `k` filters of the chain, each of which only
      restricts when its selection is non-empty. */
  predicate PassesFirst(sel: Selection, r: Row, k: nat) {
    && (k < 1 || sel.jobs == [] || JobSelected(sel, r))
    && (k < 2 || sel.certs == [] || CertSelected(sel, r))
    && (k < 3 || sel.clusters == [] || ClusterSelected(sel, r))
    && (k < 4 || sel.seniority == [] || SenioritySelected(sel, r))
  }

  /** The row passes the whole chain. */
  predicate Admits(sel: Selection, r: Row) {
    PassesFirst(sel, r, 4)
  }

  /** The masks of the chain as function values. */
  function PassesFirstMask(sel: Selection, k: nat): Row -> bool {
    (r: Row) => PassesFirst(sel, r, k)
  }

  function AdmitsMask(sel: Selection): Row -> bool {
    (r: Row) => Admits(sel, r)
  }

  function JobMask(sel: Selection): Row -> bool {
    (r: Row) => JobSelected(sel, r)
  }

  function CertMask(sel: Selection): Row -> bool {
    (r: Row) => CertSelected(sel, r)
  }

  function ClusterMask(sel: Selection): Row -> bool {
    (r: Row) => ClusterSelected(sel, r)
  }

  function SeniorityMask(sel: Selection): Row -> bool {
    (r: Row) => SenioritySelected(sel, r)
  }

  /** Whether filter number `k` of the chain (0 to 3) is switched on. */
  predicate AxisActive(sel: Selection, k: nat) {
    if k == 0 then sel.jobs != []
    else if k == 1 then sel.certs != []
    else if k == 2 then sel.clusters != []
    else sel.seniority != []
  }

  /** The mask of filter number `k` of the chain. */
  function AxisMask(sel: Selection, k: nat): Row -> bool {
    if k == 0 then JobMask(sel)
    else if k == 1 then CertMask(sel)
    else if k == 2 then ClusterMask(sel)
    else SeniorityMask(sel)
  }

  /** The table after the first `k` links of the chain, each link masking the
      table with its filter when that filter is switched on. */
  function Chain(rows: seq<Row>, sel: Selection, k: nat): seq<Row>
    requires k <= 4
  {
    if k == 0 then rows
    else if AxisActive(sel, k - 1) then Keep(Chain(rows, sel, k - 1), AxisMask(sel, k - 1))
    else Chain(rows, sel, k - 1)
  }

  /** One link of the chain: if the table holds the rows that passed the first
      `k` filters, masking it with filter `k` (when that one is active) leaves
      the rows that passed the first `k + 1`. */
  lemma {:induction false} ChainKeepsPassing(rows: seq<Row>, sel: Selection, k: nat)
    requires k <= 4
    ensures Chain(rows, sel, k) == Keep(rows, PassesFirstMask(sel, k))
  {
    if k == 0 {
      KeepAll(rows, PassesFirstMask(sel, 0));
    } else {
      var j := k - 1;
      ChainKeepsPassing(rows, sel, j);
      var mask := AxisMask(sel, j);
      if AxisActive(sel, j) {
        forall r ensures PassesFirstMask(sel, k)(r) == (PassesFirstMask(sel, j)(r) && mask(r)) {
        }
        KeepKeep(rows, PassesFirstMask(sel, j), mask, PassesFirstMask(sel, k));
      } else {
        forall r ensures PassesFirstMask(sel, k)(r) == PassesFirstMask(sel, j)(r) {
        }
        KeepAgree(rows, PassesFirstMask(sel, j), PassesFirstMask(sel, k));
      }
    }
  }

  /** Lines 64-76. Each filter is applied only when its selection is non-empty;
      the result is the rows, in their original order, that every active filter
      accepts, and with nothing selected it is the whole table. */
  method ApplyFilters(rows: seq<Row>, sel: Selection) returns (filtered: seq<Row>)
    ensures filtered == Keep(rows, AdmitsMask(sel))
    ensures IsSubsequence(filtered, rows)
    ensures forall r :: r in filtered <==> r in rows && Admits(sel, r)
    ensures sel == NoSelection ==> filtered == rows
  {
    filtered := rows;
    if sel.jobs != [] {
      filtered := Keep(filtered, JobMask(sel));
    }
    assert filtered == Chain(rows, sel, 1);
    if sel.certs != [] {
      filtered := Keep(filtered, CertMask(sel));
    }
    assert filtered == Chain(rows, sel, 2);
    if sel.clusters != [] {
      filtered := Keep(filtered, ClusterMask(sel));
    }
    assert filtered == Chain(rows, sel, 3);
    if sel.seniority != [] {
      filtered := Keep(filtered, SeniorityMask(sel));
    }
    assert filtered == Chain(rows, sel, 4);
    ChainKeepsPassing(rows, sel, 4);
    AdmitsIsPassingAll(rows, sel);
    KeepIsSubsequence(rows, AdmitsMask(sel));
    forall r ensures r in filtered <==> r in rows && Admits(sel, r) {
      assert AdmitsMask(sel)(r) == Admits(sel, r);
    }
    if sel == NoSelection {
      NothingSelectedKeepsAll(rows);
    }
  }

  lemma AdmitsIsPassingAll(rows: seq<Row>, sel: Selection)
    ensures Keep(rows, PassesFirstMask(sel, 4)) == Keep(rows, AdmitsMask(sel))
  {
    forall r ensures PassesFirstMask(sel, 4)(r) == AdmitsMask(sel)(r) {
    }
    KeepAgree(rows, PassesFirstMask(sel, 4), AdmitsMask(sel));
  }

  /** With all four selections empty every row passes. */
  lemma NothingSelectedKeepsAll(rows: seq<Row>)
    ensures Keep(rows, AdmitsMask(NoSelection)) == rows
  {
    forall r ensures AdmitsMask(NoSelection)(r) {
    }
    KeepAll(rows, AdmitsMask(NoSelection));
  }

  /** The certification filter (lines 67-72) keeps whole rows, and keeps a row
      exactly when one of its certificates is selected, provided the selection
      does not hold the empty string (no offered option is empty). */
  lemma CertFilterKeeps(rows: seq<Row>, sel: Selection)
    requires [] !in sel.certs
    ensures forall r :: r in Keep(rows, CertMask(sel)) <==>
      r in rows && exists c :: c in SplitCerts(r.certs) && c in sel.certs
  {
    forall r ensures CertMask(sel)(r) <==> exists c :: c in SplitCerts(r.certs) && c in sel.certs {
      HasSelectedCertIffSomeCertSelected(r.certs, sel.certs);
    }
  }
}
