# Job title ↔ certification graph, modelled in Dafny

`app_visual.py` is a Streamlit page. It draws a graph that links job titles to the certifications those jobs ask for. It works in three steps:

1. **Load** the table. Keep the rows whose `llm_evaluation` is `MATCH`, then keep only the rows of the first `n` distinct job titles (lines 10-20).
2. **Filter** it with four multiselects: job title, certification, cluster and seniority (lines 64-76). An empty selection leaves its axis unrestricted. The certification filter keeps a row when any stripped `;`-separated piece of its certification field is selected.
3. **Build** the graph in one pass over the filtered rows (lines 79-100):
   - Two insertion-ordered dicts get a node for each new job title and each new certification. The first row with a key wins.
   - One edge is appended per (row, certification) pair, with duplicates kept.
   - The node list is the job nodes followed by the certification nodes.

The model follows the program's own structure:

| module | file | what |
|---|---|---|
| `Seqs` | `seqs.dfy` | the pandas idioms as sequence functions: boolean mask (`Keep`), `drop_duplicates` (`Dedup`), `head` (`Take`), and the lemmas relating them |
| `Text` | `text.dfy` | Python's `str.strip()`, with the `str.isspace` character set, and `str.split(sep)` |
| `Table` | `table.dfy` | a row of the table and its job column |
| `Certs` | `certs.dfy` | how the certification field is split (line 84), offered as options (line 30) and tested by the filter (line 70) |
| `Loading` | `loading.dfy` | `load_data` once the CSV is in memory |
| `Filters` | `filters.dfy` | the filter chain, as a method that reassigns the table step by step |
| `Graph` | `graph.dfy` | the graph-building loop, as a method with nested loops over maps and sequences, proved against fold functions and a first-seen description of the dicts |
| `GraphFacts` | `graph_facts.dfy` | what the node and edge lists amount to |
| `Pipeline` | `pipeline.dfy` | the three steps end to end |

A Python dict with insertion order is modelled as a `map` plus the sequence of its keys in insertion order (`Graph.Dict`). `list(d.values())` then reads the map along that sequence.

The script does no community detection, keeps duplicate edges, drops no isolated nodes, lets the first row of a job decide its node, and raises no error when a job title equals a certificate name. The model does the same.

## Model

| member | source | states |
|---|---|---|
| `Seqs.Keep` | app_visual.py:13 | a boolean mask keeps every element that satisfies it, as often as it occurs, and drops every other one |
| `Seqs.KeepNone` | app_visual.py:13 | a mask that holds for no element keeps nothing |
| `Seqs.KeepIsSubsequence` | app_visual.py:64-76 | a masked table is an order-preserving subsequence of the table |
| `Seqs.KeepKeep` | app_visual.py:64-76 | masking twice is masking once with the conjunction |
| `Seqs.Dedup` | app_visual.py:18 | `drop_duplicates` yields each distinct element exactly once, and no other element |
| `Seqs.DedupFirstSeenOrder` | app_visual.py:18 | the distinct elements come in the order of their first occurrence |
| `Seqs.DedupAppend` | app_visual.py:88-94 | elements seen later never disturb the distinct elements already listed |
| `Seqs.DedupKeep` | app_visual.py:18-19 | removing duplicates commutes with masking |
| `Seqs.Take` | app_visual.py:18 | `head(n)` is the first `min(n, length)` elements, unchanged |
| `Text.IsSpace` | app_visual.py:84 | the whitespace `strip()` removes includes no digit, no ASCII letter and not the separator `;` |
| `Text.LeadingSpaces` | app_visual.py:84 | the count of leading whitespace: every counted character is whitespace and the next one is not |
| `Text.TrailingSpaces` | app_visual.py:84 | the count of trailing whitespace, likewise from the end |
| `Text.Strip` | app_visual.py:84 | `str.strip()` neither starts nor ends with whitespace and adds no character |
| `Text.StripSlice` | app_visual.py:84 | `str.strip()` is a contiguous slice of its input, and only whitespace is cut off on both sides |
| `Text.StripIdempotent` | app_visual.py:84 | stripping twice equals stripping once |
| `Text.Split` | app_visual.py:84 | `split(sep)` gives one more piece than there are separators, and no piece holds the separator |
| `Text.SplitWithoutSeparator` | app_visual.py:84 | a string without the separator is a single piece |
| `Text.SplitAppend` | app_visual.py:84 | the pieces of `a`, a separator, then `b` are the pieces of `a` followed by the pieces of `b` |
| `Text.JoinSplit` | app_visual.py:84 | joining the pieces with the separator gives back the field |
| `Table.Jobs` | app_visual.py:18-19 | the job column has one entry per row, in row order |
| `Table.JobsKeep` | app_visual.py:19 | masking rows by their job is masking the job column with the same test |
| `Certs.CleanPieces` | app_visual.py:84 | the kept pieces are non-empty and have no whitespace at either end |
| `Certs.CleanPiecesMembers` | app_visual.py:84 | a string is kept exactly when it is the non-empty stripped form of some piece |
| `Certs.CleanPiecesAppend` | app_visual.py:84 | the comprehension works piece by piece: cleaning two lists of pieces in turn gives the two cleaned lists in turn |
| `Certs.SplitCerts` | app_visual.py:84 | a row's certificates are non-empty, have no surrounding whitespace, hold no `;`, and number at most the count of pieces |
| `Certs.SplitCertsMembers` | app_visual.py:84 | `c` is a certificate of a field exactly when it is a non-empty stripped piece of it |
| `Certs.SplitCertsOfPiece` | app_visual.py:84 | a field without `;` yields its stripped form as its one certificate, or nothing when that is empty |
| `Certs.SplitCertsAppend` | app_visual.py:84 | the certificates of `a;b` are those of `a` followed by those of `b`, so order is kept and nothing is merged |
| `Certs.SplitCertsKeepsDuplicates` | app_visual.py:84 | a certificate listed twice in a field is returned twice |
| `Certs.HasSelectedCert` | app_visual.py:70 | the filter's test never holds for an empty selection, and on a field without `;` it holds exactly when the stripped field is selected |
| `Certs.HasSelectedCertIffSomeCertSelected` | app_visual.py:70 | when the empty string is not selected, the filter's test on a row holds exactly when one of the row's certificates is selected |
| `Certs.CertOptions` | app_visual.py:30 | the offered options are exactly the certificates of the rows, and never the empty string |
| `Certs.SelectionFromOptionsMatchesSplitCerts` | app_visual.py:70 | for a selection made from the offered options, the line-70 test and the line-84 split agree |
| `Certs.EmptySelectionMatchesEmptyPiece` | app_visual.py:70 | the line-70 test differs from line 84 on the empty string: an empty field has no certificate, yet it passes a selection of `""` |
| `Loading.MatchRows` | app_visual.py:13 | exactly the rows whose evaluation is `MATCH` are kept |
| `Loading.JobSubset` | app_visual.py:18 | the job subset is duplicate-free, holds `min(n, #distinct)` titles, and each comes from a matched row |
| `Loading.LoadRows` | app_visual.py:13-19 | the loaded table is no longer than the input and holds exactly the `MATCH` rows whose job is in the job subset |
| `Loading.LoadRowsSpec` | app_visual.py:13-19 | the loaded table is the input masked by "is a `MATCH` row whose job is among the first `n` distinct matched jobs": each such row as often as it occurs, in the original order, and no other row. Its distinct jobs are exactly those first `min(n, #distinct)` jobs, in first-seen order |
| `Filters.JobSelected` | app_visual.py:66 | a row can only pass the job test when some job is selected |
| `Filters.CertSelected` | app_visual.py:69-70 | a row can only pass the certification test when some certificate is selected, and, when `""` is not selected, it passes exactly when one of its certificates is selected |
| `Filters.ClusterSelected` | app_visual.py:74 | a row can only pass the cluster test when some cluster is selected |
| `Filters.SenioritySelected` | app_visual.py:76 | a row can only pass the seniority test when some seniority is selected |
| `Filters.UnguardedEmptySelectionDropsAll` | app_visual.py:65-76 | each `if selected_...:` guard is needed: applied with an empty selection, a filter's mask would drop every row |
| `Filters.ChainKeepsPassing` | app_visual.py:64-76 | after `k` links of the chain, the table holds exactly the rows that pass the first `k` filters |
| `Filters.ApplyFilters` | app_visual.py:64-76 | the filtered table is the original rows, in order, that every active filter accepts. With nothing selected it is the whole table |
| `Filters.NothingSelectedKeepsAll` | app_visual.py:64-76 | with all four selections empty, every row passes |
| `Filters.CertFilterKeeps` | app_visual.py:67-72 | the certification filter keeps whole rows, exactly those with a selected certificate |
| `Graph.JobColor` | app_visual.py:87 | a job gets its cluster's palette colour when the cluster has an entry, and is gray exactly when it has none |
| `Graph.JobLabel` | app_visual.py:91 | the label is the job title, a line break, then the cluster and seniority in parentheses, separated by `, ` |
| `Graph.JobNode` | app_visual.py:89-94 | a job node's id is the job title, its label starts with the title, it is larger than a certificate node, and it is gray exactly when its cluster has no colour |
| `Graph.CertNode` | app_visual.py:97 | a certificate node's id and label are the certificate, it is smaller than a job node, and its colour is neither a palette colour nor gray |
| `Graph.EdgesFrom` | app_visual.py:95-98 | one edge per certificate of the row, from the row's job, in the certificates' order |
| `Graph.AddIfAbsent` | app_visual.py:88-89 | inserting if absent never overwrites an entry; a new key is added last with its value, and an existing key leaves the insertion order unchanged |
| `Graph.ValuesInOrder` | app_visual.py:100 | `list(d.values())` lists the value of each key in insertion order |
| `Graph.JobDictKeep` | app_visual.py:88 | a job already present leaves `job_nodes` as it is |
| `Graph.JobDictInsert` | app_visual.py:88-94 | a new job is added last, with the node built from its row |
| `Graph.JobDictCorrect` | app_visual.py:88-94 | after any rows, `job_nodes` has one key per distinct job, in first-seen order, each mapped to the node of the first row with that job |
| `Graph.CertDictCorrect` | app_visual.py:95-97 | after any certificates, `cert_nodes` has one key per distinct certificate, in first-seen order, each mapped to its node |
| `Graph.NodeListOfDicts` | app_visual.py:100 | the node list is the job nodes in first-seen order followed by the certificate nodes in first-seen order |
| `Graph.BuildGraph` | app_visual.py:79-100 | the loop yields exactly that node list, and exactly one edge per (row, certificate) in row order |
| `GraphFacts.JobNodeKeys` | app_visual.py:88-94 | the job node ids are the distinct job titles in first-seen order, with no repeats and no other id |
| `GraphFacts.FirstRowWins` | app_visual.py:88-94 | the node of a job is built from the first row with that job, and it is the only node with that id |
| `GraphFacts.JobNodesPrefix` | app_visual.py:88-94 | rows processed later never change the job nodes already created |
| `GraphFacts.JobNodesFirstSeenOrder` | app_visual.py:100 | job nodes come in the order in which their jobs first appear |
| `GraphFacts.InAllCerts` | app_visual.py:84-97 | a certificate occurs in the pass exactly when some row lists it |
| `GraphFacts.CertNodeKeys` | app_visual.py:95-97 | the certificate node ids are the distinct certificates in first-seen order, each listed by some row. Each id is non-empty, has no surrounding whitespace and holds no `;`, and its node is the certificate's own node |
| `GraphFacts.EdgesOfAppend` | app_visual.py:98 | edges are never merged: the edges of two tables in sequence are the first table's edges followed by the second's |
| `GraphFacts.EdgesKeepDuplicates` | app_visual.py:98 | a table given twice has every edge twice |
| `GraphFacts.EdgesMatchCerts` | app_visual.py:95-98 | edge `i` goes to the `i`-th certificate occurrence, so the edge count is the total number of certificates |
| `GraphFacts.InEdges` | app_visual.py:95-98 | an edge from a job to a certificate exists exactly when some row has that job and lists that certificate |
| `GraphFacts.EdgeEndpoints` | app_visual.py:95-100 | every edge runs from a job node's id to a certificate node's id |
| `GraphFacts.KeptRowKeepsAllItsCerts` | app_visual.py:67-97 | every certificate of a row that passes the filters gets a node, even when that certificate was not selected |
| `Pipeline.Render` | app_visual.py:24-100 | loading, filtering and building together give the job and certificate nodes and the edges of the shown rows |
| `Pipeline.AtMostNJobNodes` | app_visual.py:18-19 | whatever the filters, at most `n` job nodes are drawn, each for one of the first `n` distinct matched job titles |

## Left out

- Streamlit itself is not modelled: the page layout, the spinner, the slider, the toggle, the graph configuration and the `agraph` call (lines 1-6, 24-25, 35-44, 102 onwards). The job limit `n` and the four selections are parameters. The slider's range of 5 to 1000 is not enforced; any natural number is accepted.
- The HTML colour legend (lines 57-60) is not modelled. It only displays the palette.
- Reading the CSV file and caching (lines 9, 11-12) are not modelled. The table is a parameter.
- The `astype(str)` conversions (lines 14-15) are not modelled. Fields are strings from the start. A missing value that pandas would turn into `"nan"` is therefore not modelled.
- The projection to four columns at line 20 is not modelled. Rows keep all their fields, which no later step reads.
- Sorting of the option lists (lines 29-32) is not modelled, nor the options for jobs, clusters and seniority. The certificate options are modelled as a set (`Certs.CertOptions`). Selections are arbitrary sequences of strings.
- The `"Unknown"` default of `row.get` (lines 85-86) is not modelled. The columns always exist after loading, so the default never applies.
- A job title equal to a certificate name produces two nodes with the same id; the code does not detect this, and neither does the model.
- Node and edge objects are plain values. Their identity and any behaviour of the widget are not modelled.
