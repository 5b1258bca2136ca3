# mpstat2node in Dafny

A model of `mpstat2node.py`, a Python 2 filter. It reads the text that
`mpstat -P ALL` prints and replaces the per-CPU rows of every interval
report with one row per NUMA node. Each node row holds the mean of every
statistic column over the CPUs of that node. The assignment of CPUs to
nodes comes from an `lscpu` listing.

The model covers the two parts of the script that do the work:

- `CPU_NUMA`, in module `Topology` (`topology.dfy`). It reads the lscpu
  lines into a map from CPU id to node label, together with the declared
  CPU and node counts. CPU lists may use commas and `a-b` ranges. It fails
  when the map does not have as many CPUs as the count declares.
- `modify_mpstat_output` and `average_over_node`, in module `Stream`
  (`stream.dfy`). They copy two lines of system information, then handle
  one interval report per call:
  - rewrite the header with `NODE`;
  - copy the line under it;
  - read `cpu_nb` CPU rows and bucket their ten values by node
    (module `Aggregate`, `aggregate.dfy`);
  - write one row of means per node;
  - copy the separator line.

  A blank header ends the loop, and exactly one more report is read.

Supporting modules:

- `Wrappers`: `Option` and `Result`.
- `PyText`: the Python string operations the script relies on.
  - `split()` and `split(sep)`.
  - Clamped slicing.
  - `strip`.
- `Numerals`: Python 2's `int()`, `str()` of an integer, and the decimal
  part of `float()`. Values are exact reals.
- `Program`: the two parts composed as the script's main block does.

Standard input is a sequence of lines. Reading past the end gives "",
as `readline` does. Standard output is the sequence of `write` calls. A
node row is kept as structure: the 11-character prefix, the node number
and the ten means.

Every exception the script can raise in this code has a constructor:
- `TopologyError` for `CPU_NUMA`;
- `StreamError` for the filter.

Output written before an exception is kept. A run ends in one of three ways:
- `Finished`;
- `Failed(error)`;
- `Diverges`, the endless loop the script enters when it counts neither
  CPUs nor nodes and the input runs out before a report header is a blank
  line. Only a blank line read where a header is expected stops the loop;
  blank lines elsewhere do not.

`Stream` reads CPU rows through a function parameter. `Setup` bundles
that row reader with the two counts. `Stream.Run` instantiates it with
`Aggregate.ParseRow` and the topology. The proofs about the report loop
therefore hold for any row reader with the two properties `RowReader`
names.

`Aggregate.NodeOf` and `Aggregate.ParseRow` require every label in the map
to be one non-blank character. `CPU_NUMA` only ever stores such labels,
`words[1][-1:]`, and `Topology.CpuNuma` promises this.

The script does none of the following, and neither does the model:
- forward comment lines;
- count `%` signs to find the number of columns (it is fixed at 10);
- warn about a missing separator or a node-count mismatch;
- divide by a per-node CPU count from the listing (it divides by the
  number of rows the node actually received in the report);
- order the nodes by the labels observed (it writes nodes `0 ..
  nodes_nb - 1`).

## Model

| member | source | states |
|---|---|---|
| PyText.Words | mpstat2node.py:85 | every word `split()` returns is non-empty and free of white space |
| PyText.WordsKeepEveryNonSpace | mpstat2node.py:85 | the words, concatenated, are exactly the non-white characters of the line, in order |
| PyText.WordsOfUnwords | mpstat2node.py:151 | words joined by blanks split back into the same words |
| PyText.PaddedWord | mpstat2node.py:151 | one word with white space around it splits into that word alone |
| PyText.TwoWords | mpstat2node.py:85 | two blank-separated words followed by white space split into those two words, then the rest |
| PyText.Split | mpstat2node.py:86 | `split(sep)` gives at least one piece, no piece contains the separator, and there is exactly one piece iff the separator does not occur |
| PyText.JoinSplit | mpstat2node.py:86 | joining the pieces of `split(sep)` with the separator gives the text back |
| PyText.SplitJoin | mpstat2node.py:89 | splitting a join of separator-free pieces gives the pieces back |
| PyText.StripAround | mpstat2node.py:79 | stripping removes the white space around a text and nothing else; an all-blank text strips to "" |
| PyText.TakeDrop | mpstat2node.py:140 | a slice `s[:n]` has n characters, or all of s when s is shorter, and `s[:n] + s[n:]` is s |
| PyText.LastChar | mpstat2node.py:91 | `s[-1:]` is empty for "" and otherwise the one last character |
| Numerals.NatToString | mpstat2node.py:91 | `str(n)` is a non-empty digit string whose value is n, with no leading zero |
| Numerals.IntToString | mpstat2node.py:91 | `str(i)` is non-empty and blank-free, and all digits exactly when i is not negative |
| Numerals.ParseInt | mpstat2node.py:79 | `int()` of a text without a minus sign is never negative |
| Numerals.ParseIntOfString | mpstat2node.py:90 | `int(str(i))` is i, also with white space around the text |
| Numerals.IntToStringInjective | mpstat2node.py:90-91 | different integers give different keys `str(i)` |
| Numerals.ParseIntOfChar | mpstat2node.py:154 | `int()` of a one-character label is its digit, or raises when it is not a digit |
| Numerals.ParseDecimalOfString | mpstat2node.py:154 | `float()` of an integer's text is that integer |
| Topology.NodeLineWords | mpstat2node.py:84-86 | a line starting with "NUMA node" has at least two words, the first "NUMA", so `words[1]` and `words[-1]` exist |
| Topology.NodeLabel | mpstat2node.py:91 | a node label is one character that is not white space |
| Topology.WordsOfNodeLine | mpstat2node.py:85 | "NUMA node<d> rest" splits into "NUMA", "node<d>" and the words of the rest |
| Topology.NodeLabelIsLastCharOfName | mpstat2node.py:91 | the label of "NUMA node<d> ..." is the last character of d only, so node 10 gets label "0" |
| Topology.RangeKeysStep | mpstat2node.py:90 | the ids of a..b are `str(a)` plus the ids of a+1..b |
| Topology.AssignRange | mpstat2node.py:90-91 | the range loop maps every `str(i)`, a <= i <= b, to the node and keeps every other entry |
| Topology.AssignToken | mpstat2node.py:88-93 | one token succeeds iff it is not a range or both range ends are integers, and then maps exactly its ids to the node over the old map |
| Topology.AssignTokens | mpstat2node.py:87-93 | the token loop succeeds iff every token does, and then maps the union of their ids to the node, later assignments overwriting earlier ones |
| Topology.NodeLineAssigns | mpstat2node.py:84-93 | a node line gives each of its ids the line's label and leaves every other key and value as it was; it fails exactly when some range end is not an integer |
| Topology.TokenKeysOfRange | mpstat2node.py:88-91 | a token `a-b` with integer ends covers exactly `str(a)` .. `str(b)` |
| Topology.CpuCountLine | mpstat2node.py:78-79 | a "CPU(s):" line with an integer records it as the CPU count and changes nothing else |
| Topology.NodeCountLineWords | mpstat2node.py:84-91 | the "NUMA node(s):" line is a node line whose second word is "node(s):", so its label is ":" |
| Topology.NodeCountAssigns | mpstat2node.py:84-93 | on the "NUMA node(s):" line the count itself is the one CPU id assigned |
| Topology.NodeCountLine | mpstat2node.py:80-93 | as written, the node-count line records the count and also maps `str(count)` to ":"; as intended it only records the count |
| Topology.NodeCpuLineAssigns | mpstat2node.py:84-93 | "NUMA node<d> CPU(s): w" maps CPU w to the last digit of d and keeps every other entry |
| Topology.NodeCpuLine | mpstat2node.py:78-93 | such a line changes only the map, in either reading |
| Topology.ScanLines | mpstat2node.py:75-93 | every label the scan stores is one non-blank character |
| Topology.NodeLineLabels | mpstat2node.py:91-93 | a node line keeps the map's labels one non-blank character each |
| Topology.CpuNuma | mpstat2node.py:66-100 | when `CPU_NUMA` returns, the map has exactly `cpu_nb` CPUs and only one-character labels |
| Topology.CpuNumaSucceeds | mpstat2node.py:96-100 | `CPU_NUMA` returns iff the scan raised nothing, both counts were read and the map size equals the CPU count; it returns the map and both counts |
| Topology.OneCpuListingRead | mpstat2node.py:80-98 | as written, the listing of one CPU on one node is rejected with 2 mapped for 1 declared; as intended it gives CPU "0" on node "0" |
| Aggregate.ListIndex | mpstat2node.py:154 | Python indexing of a list of `size` elements succeeds iff -size <= i < size, at the position congruent to i |
| Aggregate.NodeOf | mpstat2node.py:154 | a node found for a CPU means the CPU is in the map and the node is below `nodes_nb` |
| Aggregate.NodeOfIsIndexOfLabel | mpstat2node.py:154 | the node lookup equals Python's `statistics[col][int(label)]`, errors included |
| Aggregate.NodeOfLabel | mpstat2node.py:154 | the node is found iff the CPU is mapped to a digit label below `nodes_nb`, and it is that digit |
| Aggregate.ParseValues | mpstat2node.py:153-154 | the values read are `count` numbers, the c-th being `float(words[c + 1])` |
| Aggregate.ParseValuesSucceeds | mpstat2node.py:153-154 | the values are read iff there are more than `count` words and words 1..count are all decimal |
| Aggregate.ParseRow | mpstat2node.py:150-154 | a row read carries `line[:11]`, the first word after it as CPU, that CPU's node (below `nodes_nb`) and `float` of the ten next words |
| Aggregate.ParseRowSucceeds | mpstat2node.py:150-154 | a row is read iff it has a CPU id with a node and ten decimal words after it; no CPU id, or a failed node lookup, is the exception raised |
| Aggregate.ShortRowHasNoCpu | mpstat2node.py:150-152 | a line of at most 11 characters, such as "" past the end of input, raises at `words[0]` |
| Aggregate.NoStats | mpstat2node.py:144-146 | the buckets start as ten columns of `nodes_nb` empty lists |
| Aggregate.AddRow | mpstat2node.py:153-154 | a row appends its c-th value to column c of its own node and changes no other list |
| Aggregate.Collect | mpstat2node.py:149-154 | after reading rows the buckets keep their shape |
| Aggregate.RowsOf | mpstat2node.py:154 | the rows of node n all belong to n and come from the rows read |
| Aggregate.Column | mpstat2node.py:154 | one value per row |
| Aggregate.CollectIsColumnOfRows | mpstat2node.py:144-154 | bucket [c][n] is exactly column c of node n's rows, in reading order |
| Aggregate.RowsOfPartition | mpstat2node.py:149-154 | every row read lands in exactly one node's bucket |
| Aggregate.SumBounds | mpstat2node.py:160 | a sum of values between lo and hi lies between count*lo and count*hi |
| Aggregate.MeanBounds | mpstat2node.py:160 | the mean of values that all lie between lo and hi lies between lo and hi |
| Aggregate.MeanOfEqualValues | mpstat2node.py:160 | the mean of equal values is that value |
| Aggregate.NodeMeans | mpstat2node.py:157-161 | a node row holds ten means |
| Aggregate.NodeMeansOfRows | mpstat2node.py:157-161 | mean c of node n is the sum of column c over n's rows divided by how many rows n received |
| Stream.RewriteHeaderKeeps | mpstat2node.py:140 | the header keeps characters 0..11 and 16.., with "NODE" in place of 12..15; a shorter header is cut at 12 with "NODE" after it |
| Stream.RowParserReads | mpstat2node.py:149-154 | the script's row reading meets `RowReader` and `KeepsPrefix`: a row read has a node below `nodes_nb` and ten values and carries `line[:11]` of its own line, and "" raises for want of a CPU id |
| Stream.SetupOf | mpstat2node.py:103-127 | the filter is run with the topology's counts and a row reader that meets `RowReader` and `KeepsPrefix` |
| Stream.ReadRows | mpstat2node.py:149-154 | reading `cpu_nb` rows gives exactly `cpu_nb` rows, each with a node below `nodes_nb` and ten values |
| Stream.ReadRowsLines | mpstat2node.py:149-154 | the rows read are one per line, in order, each what that line parses to; a failure is the failure of one of the lines |
| Stream.ReadRowsFirstFailure | mpstat2node.py:149-154 | rows are read iff every line parses, and a failure is that of the first line that does not |
| Stream.NodeRows | mpstat2node.py:157-163 | the node loop writes node rows 0, 1, ... in order, each with the last row's prefix and its node's means, and stops at the first node with no rows, or at once if no row was read |
| Stream.Summarize | mpstat2node.py:157-166 | a report that goes through writes `nodes_nb` node rows and then the copied separator; one that fails writes fewer node rows |
| Stream.Pass | mpstat2node.py:134-141 | a call returns 'END' iff the header is "\n", writing only "\n" and reading one line; otherwise it writes at least the two header lines |
| Stream.PassHead | mpstat2node.py:134-141 | a call at a header that is not blank first writes that header with "NODE" in columns 12..15 and then the line under it, whatever happens later |
| Stream.PassShape | mpstat2node.py:140-166 | a report that goes through reads 3 + `cpu_nb` lines and writes 3 + `nodes_nb` pieces, the last being the copied separator |
| Stream.SummarizeSucceeds | mpstat2node.py:157-160 | the node loop goes through iff there are no nodes, or a row was read and every node received one |
| Stream.SummarizeNodeRows | mpstat2node.py:157-163 | node row n has the last row's prefix, number n and mean c equal to the sum of column c over n's rows divided by their count |
| Stream.PassContinues | mpstat2node.py:134-166 | a report goes through iff the header is not blank, all CPU rows parse and, when there are nodes, every node received a row |
| Stream.PassNodeRows | mpstat2node.py:149-163 | in a report that goes through, node row n carries `line[:11]` of the last CPU row, the number n and the column means over n's own rows |
| Stream.PassPastEnd | mpstat2node.py:134-152 | past the end of input a call raises at the first CPU row if there is one, raises for want of a row if there are nodes but no CPUs, and otherwise writes "NODE", "" and "" and goes on |
| Stream.Rewrite | mpstat2node.py:113-124 | the filter writes at least three pieces, the first two being the first two input lines |
| Stream.Run | mpstat2node.py:103-124 | the same, for the filter run with a topology from `CPU_NUMA` |
| Stream.DivergesOnlyWithoutCounts | mpstat2node.py:118-152 | the loop can only run forever when both `cpu_nb` and `nodes_nb` are below 1 |
| Stream.DivergesPastEnd | mpstat2node.py:118-121 | with no CPUs and no nodes, the loop at the end of input writes "NODE", "" and "" and never stops |
| Stream.BlankLineEndsLoop | mpstat2node.py:118-124 | after the blank header exactly one more report is read and the program then ends, whatever follows |
| Stream.BlocksThrough | mpstat2node.py:118-121 | up to any report reached through reports that go through, the loop writes exactly those reports in order, then what it writes from that report on, and ends as that does |
| Stream.BlocksFinished | mpstat2node.py:118-124 | the loop ends normally only if reports that go through reach a blank header and the one report after it raises nothing; it then writes exactly those reports, "\n" and that last report |
| Stream.BlocksFailed | mpstat2node.py:118-124 | the loop raises only if reports that go through reach one that raises, or a blank header whose next report raises; it then writes exactly the reports up to that point, and the error is that report's |
| Stream.RunFinished | mpstat2node.py:113-124 | a filter run that ends normally writes the two copied lines, the reports from line 2 up to a blank header, "\n" and the final report |
| Program.Mpstat2Node | mpstat2node.py:169-172 | the program fails before writing anything iff `CPU_NUMA` fails, with its error; otherwise it runs the filter with exactly the topology `CPU_NUMA` returned, whose CPU count equals its map size, and copies the first two lines |
| Program.HangsOnlyWithoutCpus | mpstat2node.py:96-152 | the program can only hang when the listing declares zero CPUs and fewer than one node |

## Left out

- `get_input` (mpstat2node.py:26-63): argument parsing and the access checks on the lscpu path. The model starts from the listing's lines.
- Opening the lscpu file and the `stdin`/`stdout`/`stderr` handles. Input is a sequence of lines and output a sequence of writes. The message on standard error and `exit(1)` are the `CountMismatch` error.
- The text of a node row, `'{0}{1:5d}'` and `'{:8.2f}'` (mpstat2node.py:158-161). The row is kept as prefix, node and exact means.
- Numerals.ParseDecimal: covers an optional sign and digits with at most one point. Exponents, `inf` and `nan` are not modelled, and values are exact reals rather than binary64. So the means are exact, not rounded.
- Numerals.ParseInt: its contract states only the sign. What it reads is stated by `Numerals.ParseIntOfString` and `Numerals.ParseIntOfChar`, the only inputs the script gives it in practice.
- Stream.Rewrite: its contract only says what the first pieces are. The rest of the transcript is described report by report through `Stream.Pass` and the lemmas about `Blocks`: `BlocksThrough`, `BlocksFinished`, `BlocksFailed` and `DivergesOnlyWithoutCounts`.
- Stream.Run: its own contract, like that of `Stream.Rewrite`, only states the two copied lines. What a run that ends normally writes is stated by `Stream.RunFinished`. A run that fails is covered by `Stream.BlocksFailed` on the loop from line 2.
- Program.Mpstat2Node: its contract ties the result to `Topology.CpuNuma` and `Stream.Run`. It restates none of their properties; those are the lemmas about them.
- That the script as written never hangs is not proved. As written, the "NUMA node(s):" line is also read as a node line. Its last word is the node count, so it adds a CPU id to the map or raises. A listing the script accepts therefore declares at least one CPU, and the loop ends once the input runs out. `Program.HangsOnlyWithoutCpus` proves only the weaker fact for both readings: a hang needs zero CPUs and fewer than one node. A hang is reachable under `Intended`.
- Blocking on a live or tailed input. Inputs are finite, and the loop that never ends is reported as `Diverges` with the output up to its first repetition.

## Findings

| source | as written | input that shows it | evidently intended | confidence | as-written member | corrected member |
|---|---|---|---|---|---|---|
| mpstat2node.py:84 | the test `line[:9] == 'NUMA node'` also matches the "NUMA node(s):" count line, which then maps the CPU id `str(nodes_nb)` to the label ":" | an lscpu listing "CPU(s): 1", "NUMA node(s): 1", "NUMA node0 CPU(s): 0" is rejected with "Error in CPU - node association!" (2 mapped, 1 declared) | only "NUMA node<d> CPU(s):" lines assign CPUs, so the listing gives CPU "0" on node "0" | high (not executed) | Topology.NodeCountLine | Topology.OneCpuListingRead |

Both readings are one definition, `Topology.CpuNuma(lines, reading)`:
- `AsWritten` is the script;
- `Intended` skips the count line when assigning CPUs.

`Topology.NodeCountLine` and `Topology.OneCpuListingRead` state both
readings side by side. The filter takes whatever topology it is given.
`Program.Mpstat2Node` runs the script with either reading.
