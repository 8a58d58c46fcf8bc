# Segmentation graph from alignment records

A Dafny model of the core of `x.py`, a small converter that cuts a reference
sequence into nodes at breakpoints read from a PAF alignment file (minimap2's
Pairwise mApping Format) and links consecutive nodes by edges labelled with a
variation code, ready to be written as GFA 1.0.

The model follows the program's pieces, one module each:

- `Wrappers` (`wrappers.dfy`): `Option` and `Result`.
- `PafRecord` (`paf_record.dfy`): `process_paf_line`. `str.split()` is
  `Fields`, splitting on Python's whitespace characters; `int()` is
  `ParseInt`; the ValueError `int()` raises is the `Err` branch. Fields 1, 2
  and 7 are used by position only (in PAF these columns are query length,
  query start and target start; the program calls them start, end and
  variation, and the model keeps the program's reading).
- `PafReader` (`paf_reader.dfy`): the loop of `read_paf` that compacts the
  per-line results into `breakpoints` and `variations`. `executor.map` yields
  results in line order, so the loop is a sequential fold (`Collect`), and
  `ReadPaf` is the loop proved equal to it. A ValueError is not caught by
  `read_paf`, so the first failing line, in line order, fails the whole read.
- `Breakpoints` (`breakpoints.dfy`): `sorted(set(breakpoints))` as
  `Normalize`, built by insertion; `AscendingUnique` shows that a strictly
  ascending list is fixed by its elements, so this equals Python's result.
- `Graph` (`graph.dfy`): the records `Node` and `Edge`, and the globals `V`
  and `E` as the fields `nodes` and `edges` of the class `VariationGraph`.
  `ProcessSequence` and `CreateEdges` are the loops of `process_sequence`
  and `create_edges`, proved to append exactly `Segment(...)` and
  `Link(...)`, the specification functions about which the lemmas are proved.
  The Node field the program calls `label` is `segment` here, because
  `label` is a reserved word in Dafny.
- `Pipeline` (`pipeline.dfy`): `main` between reading and writing: the
  empty-sequence stop, the read, the normalisation and the two builders.

Python's slice `sequence[prev:bp]` clamps to the string length, and the model
does the same (`Slice`). The sweep therefore does not guarantee non-empty
nodes: on `"ACGT"` with breakpoints `[2, 6, 9]` the third node is empty
(`PastTheEnd`). Non-empty nodes, and offsets at or past the end having no
effect, hold only when no breakpoint exceeds the sequence length
(`SegmentNonEmpty`); the model keeps the code's behaviour for larger ones.

## Model

| member | source | states |
|---|---|---|
| `PafRecord.Fields` | x.py:39 | every field produced by `split()` is non-empty and free of whitespace |
| `PafRecord.FieldsOfLayout` | x.py:39 | splitting a line laid out from well-formed fields, with any whitespace before, between (non-empty) and after them, tabs and the newline `readlines()` keeps included, gives those fields back |
| `PafRecord.ParseInt` | x.py:42-43 | `int()` succeeds exactly on a non-empty run of digits, or `-` followed by one (so a bare `-` fails), and a negative value only with the `-` |
| `PafRecord.ParseIntLeadingZero` | x.py:42-43 | a leading zero does not change the value: `int("0" + t) == int(t)` for every numeral `t` |
| `PafRecord.ParseIntNegative` | x.py:42-43 | `int("-" + t) == -int(t)` for every numeral `t`, so `int("-0") == 0` |
| `PafRecord.ParseIntText` | x.py:42-43 | `int(str(n)) == n` for every integer, negative ones included |
| `PafRecord.ProcessPafLine` | x.py:38-45 | `(None, None)` exactly when the line has fewer than 8 fields; an error exactly when it has 8 or more and field 1 or 2 is not a numeral; otherwise exactly `([int(parts[1]), int(parts[2])], parts[7])` for `parts = line.split()`, with a non-empty whitespace-free label |
| `PafRecord.ProcessWrittenLine` | x.py:38-45 | on a line laid out from fields with any whitespace around and between them: fewer than 8 give `(None, None)`, else `([int(f1), int(f2)], f7)` |
| `PafRecord.TabSeparatedLine` | x.py:38-45 | the tab-separated line `q 100 0 100 + t 200 7` with its newline gives `([100, 0], "7")` |
| `PafRecord.ProcessRejectsNonNumeric` | x.py:42-43 | a non-numeric field 1 raises with field 1's text even if field 2 is bad too; otherwise a non-numeric field 2 raises with its text |
| `PafReader.Absorb` | x.py:57-60 | one iteration only appends to each list, adds at most one label, and `(None, None)` changes nothing; `AcceptedLineAppends` and `RejectedLineIgnored` give the exact effect |
| `PafReader.ReadPaf` | x.py:56-60 | the loop returns the in-order fold of the line results, and every success has two breakpoints per variation label |
| `PafReader.CollectErrorPersists` | x.py:56-60 | once a prefix of the lines fails, the read fails with that same error |
| `PafReader.CollectBalanced` | x.py:56-60 | `len(breakpoints) == 2 * len(variations)` after any successful read |
| `PafReader.CollectAppend` | x.py:56-60 | reading `xs + ys` is reading `xs` then `ys`: lists concatenated in line order, the first error wins |
| `PafReader.RejectedLineIgnored` | x.py:40-41 | a line with fewer than 8 fields changes neither list, wherever it stands |
| `PafReader.AcceptedLineAppends` | x.py:57-60 | an accepted line appends its pair to `breakpoints` and its label to `variations` |
| `PafReader.CollectSucceeds` | x.py:56-60 | if every line parses, the read succeeds |
| `PafReader.CollectFirstError` | x.py:56-60 | the read fails with the error of the first line, in line order, that does not parse |
| `Breakpoints.Normalize` | x.py:118 | the result is strictly ascending and has exactly the input's elements |
| `Breakpoints.AscendingUnique` | x.py:118 | two strictly ascending lists with the same elements are equal, so the result of `sorted(set(.))` is determined |
| `Breakpoints.NormalizeIdempotent` | x.py:118 | normalising twice equals normalising once |
| `Breakpoints.NormalizeAscending` | x.py:118 | a strictly ascending list is returned unchanged |
| `Breakpoints.NormalizeSameElements` | x.py:118 | lists with the same elements, in any order and with any repeats, normalise to the same list |
| `Breakpoints.NormalizeNonDecreasing` | x.py:118 | on a non-decreasing list, normalising is dropping the adjacent repeats |
| `Graph.Slice` | x.py:72 | `s[i:j]` clamps both bounds to the length: its length is `min(j, len) - i` or 0, and its k-th character is `s[i + k]`; `SliceJoin` and `PastTheEnd` show the clamping at work |
| `Graph.SegmentLabels` | x.py:66-77 | for any integer breakpoints, the node labels in order concatenate to the sequence |
| `Graph.SegmentIds` | x.py:66-77 | node ids are 1, 2, ..., the node count, in creation order |
| `Graph.SegmentNonEmpty` | x.py:70-77 | every node label is non-empty when no breakpoint exceeds the sequence length |
| `Graph.PastTheEnd` | x.py:70-73 | on "ACGT" with breakpoints 2, 6, 9 the nodes are "AC", "GT" and an empty third node |
| `Graph.SmallCases` | x.py:66-77 | "ACGTACGT" cut at 4 gives two "ACGT" nodes; "ACGT" with 0 and 4 gives one node; "TTTT" with no breakpoint gives one node |
| `Graph.SegmentWithoutCuts` | x.py:70-77 | with no breakpoint above 0, a non-empty sequence gives exactly the node `(1, sequence)` |
| `Graph.SegmentCount` | x.py:70-77 | on strictly ascending breakpoints within the sequence, the node count is the number of positive breakpoints, plus one trailing node exactly when no breakpoint equals the (non-zero) sequence length |
| `Graph.SegmentIgnoresDuplicates` | x.py:70-73 | on a non-decreasing list, normalising first does not change the nodes: repeats are skipped by `bp > prev` |
| `Graph.LinkShape` | x.py:80-84 | there are max(0, node count − 1) edges; edge k goes from `V[k].id` to `V[k+1].id` with cigar "0M" and label `variations[k]` if k < len(variations), else "M" |
| `Graph.SurplusVariationsIgnored` | x.py:82-83 | variations beyond the last edge are never read |
| `Graph.GraphShape` | x.py:66-84 | for a non-empty sequence: labels spell the sequence, ids are 1..n, and the n − 1 edges chain node k to node k + 1 with "0M" |
| `Graph.VariationGraph.constructor` | x.py:20-21 | `V` and `E` start empty |
| `Graph.VariationGraph.ProcessSequence` | x.py:66-77 | the sweep appends exactly `Segment(sequence, breakpoints)` to `V` and leaves `E` alone |
| `Graph.VariationGraph.CreateEdges` | x.py:80-84 | the loop appends exactly `Link(V, variations)` to `E` and leaves `V` unchanged |
| `Pipeline.BuildGraph` | x.py:117-124 | on a non-empty sequence: the nodes are the segmentation at `sorted(set(breakpoints))`, the edges link them with the variations, labels spell the sequence, ids are 1..n and edge k joins k+1 to k+2 with "0M" |
| `Pipeline.Run` | x.py:102-125 | an empty sequence stops the run; a parse error ends it with that error; otherwise the nodes are the segmentation at the normalised breakpoints, their labels spell the sequence, ids are 1..n and edge k joins k+1 to k+2 with "0M" |

## Left out

- `read_fasta` (x.py:24-35): file reading; the sequence is a parameter of `Pipeline.Run`.
- `output_gfa` (x.py:87-99): writing the GFA text to a file; `Pipeline.Run` returns the nodes and edges it would write.
- The `FileNotFoundError` branch of `read_paf` (x.py:61-62): file opening; the alignment lines are a parameter.
- The `ThreadPoolExecutor` (x.py:54-55): `executor.map` returns results in input order, so a sequential fold has the same results.
- The wall-clock timing and the messages printed by `main` (x.py:107, x.py:129-130) and its fixed file names.
- PafRecord.ParseInt: accepts only an optional `-` followed by ASCII digits; Python's `int()` also accepts a leading `+`, `_` between digits and non-ASCII decimal digits, which the model rejects; and the model accepts numerals of any length, while CPython (3.11 on, and the 3.7-3.10 security releases) raises ValueError for more than 4300 digits by default, so such a field ends the real run with an error where `Collect` returns `Ok` (the limit is configurable per interpreter, so it is not fixed here).
- PafRecord.Fields: `line.strip()` before `split()` is not modelled separately, since `split()` with no argument already discards leading and trailing whitespace (`FieldsOfLayout` covers lines with surrounding whitespace).
