/** `modify_mpstat_output` and `average_over_node`: the filter that copies an
    mpstat report from standard input to standard output, replacing the
    per-CPU rows of every interval with one row of means per NUMA node.

    Standard input is a sequence of lines, each with its end-of-line
    character (the last one may lack it); reading past the end gives "", as
    `readline` does. Standard output is the sequence of `write` calls. */
module Stream {
  import opened Wrappers
  import opened PyText
  import opened Topology
  import opened Aggregate

  /** One `stdout.write`: either text copied or built from the input, or a
      node row, whose text is the 11-character prefix, the node number in
      five columns and the ten means with two decimals each. */
  datatype Output =
    | Text(text: string)
    | NodeRow(prefix: string, node: nat, means: seq<real>)

  /** `stdin.readline()` as the pos-th call: the line, or "" past the end. */
  function ReadLine(input: seq<string>, pos: nat): string {
    if pos < |input| then input[pos] else ""
  }

  /** The blank line that separates the interval reports from the final
      averages. */
  const BlankLine := "\n"

  /** The column title the node number is written under. */
  const NodeTitle := "NODE"

  /** `'{0}{1}{2}'.format(columns[:12], 'NODE', columns[16:])`: the header
      keeps everything but the four characters of the CPU title, which
      become the node title; a shorter header is cut after 12 characters. */
  function RewriteHeader(columns: string): string {
    Take(columns, 12) + NodeTitle + Drop(columns, 16)
  }

  lemma RewriteHeaderKeeps(columns: string)
    ensures var r := RewriteHeader(columns);
      |columns| >= 16 ==>
        && |r| == |columns|
        && r[..12] == columns[..12]
        && r[12..16] == NodeTitle
        && r[16..] == columns[16..]
    ensures |columns| < 16 ==> RewriteHeader(columns) == Take(columns, 12) + NodeTitle
  {
  }

  // ---------------------------------------------------------------------
  // for i in range(cpu_nb): line = stdin.readline() ...
  // ---------------------------------------------------------------------

  /** How one CPU row is turned into a `Row` or an exception. The filter is
      run with `ParseRow` and the topology (`RowParser`); everything below
      relies only on the facts `RowReader` states about it. */
  type RowParse = string -> Result<Row, StreamError>

  /** A row that is read is well formed, and the empty line (what is read
      past the end of the input) has no CPU id. */
  ghost predicate RowReader(parse: RowParse, nodes: nat) {
    && (forall line :: parse(line).Ok? ==> WellFormedRow(parse(line).value, nodes))
    && parse("") == Fail(MissingCpuId(""))
  }

  /** A row that is read remembers the first 11 characters of its line. */
  ghost predicate KeepsPrefix(parse: RowParse) {
    forall line :: parse(line).Ok? ==> parse(line).value.prefix == Take(line, RowPrefixWidth)
  }

  /** `ParseRow` with the map `CPU_NUMA` returned. */
  function RowParser(t: Topology): RowParse
    requires LabelsOnly(t.cpuNuma)
  {
    line => ParseRow(t, line)
  }

  lemma RowParserReads(t: Topology)
    requires LabelsOnly(t.cpuNuma)
    ensures RowReader(RowParser(t), Count(t.nodesNb)) && KeepsPrefix(RowParser(t))
  {
    ShortRowHasNoCpu(t, "");
  }

  /** What `average_over_node` is given: how rows are read, `cpu_nb` and
      `nodes_nb`. */
  datatype Setup = Setup(parse: RowParse, cpuNb: int, nodesNb: int)

  ghost predicate Ready(f: Setup) {
    RowReader(f.parse, Count(f.nodesNb))
  }

  /** The setup `modify_mpstat_output(cpu_numa, cpu_nb, nodes_nb)` runs with. */
  function SetupOf(t: Topology): (f: Setup)
    requires LabelsOnly(t.cpuNuma)
    ensures Ready(f) && KeepsPrefix(f.parse) && f.cpuNb == t.cpuNb && f.nodesNb == t.nodesNb
  {
    RowParserReads(t);
    Setup(RowParser(t), t.cpuNb, t.nodesNb)
  }

  /** The first `count` rows read from position `from`, in order; the first
      row that does not parse stops the loop with its exception. What each
      row is, is stated by `ReadRowsLines`. */
  function ReadRows(parse: RowParse, nodes: nat, input: seq<string>, from: nat, count: nat): (r: Result<seq<Row>, StreamError>)
    requires RowReader(parse, nodes)
    ensures r.Ok? ==> |r.value| == count && WellFormedRows(r.value, nodes)
  {
    if count == 0 then Ok([])
    else
      var front :- ReadRows(parse, nodes, input, from, count - 1);
      var row :- parse(ReadLine(input, from + count - 1));
      Ok(front + [row])
  }

  /** The rows read are what the lines parse to, one per line and in
      order; a failure is what one of the lines parses to. */
  lemma {:induction false} ReadRowsLines(parse: RowParse, nodes: nat, input: seq<string>, from: nat, count: nat)
    requires RowReader(parse, nodes)
    ensures var r := ReadRows(parse, nodes, input, from, count);
      r.Ok? ==> forall j :: from <= j < from + count ==> parse(ReadLine(input, j)) == Ok(r.value[j - from])
    ensures var r := ReadRows(parse, nodes, input, from, count);
      r.Fail? ==> exists j :: from <= j < from + count && parse(ReadLine(input, j)) == Fail(r.error)
  {
    if count > 0 {
      ReadRowsLines(parse, nodes, input, from, count - 1);
    }
  }

  /** Rows are read exactly when every one of the `count` lines parses; a
      failure is the failure of the first line that does not. */
  lemma {:induction false} ReadRowsFirstFailure(parse: RowParse, nodes: nat, input: seq<string>, from: nat, count: nat)
    requires RowReader(parse, nodes)
    ensures ReadRows(parse, nodes, input, from, count).Ok? <==>
      forall j :: from <= j < from + count ==> parse(ReadLine(input, j)).Ok?
    ensures ReadRows(parse, nodes, input, from, count).Fail? ==>
      exists j :: from <= j < from + count
        && parse(ReadLine(input, j)) == Fail(ReadRows(parse, nodes, input, from, count).error)
        && forall i :: from <= i < j ==> parse(ReadLine(input, i)).Ok?
  {
    if count > 0 {
      ReadRowsFirstFailure(parse, nodes, input, from, count - 1);
      var front := ReadRows(parse, nodes, input, from, count - 1);
      if front.Ok? {
        var last := parse(ReadLine(input, from + count - 1));
        if last.Fail? {
          assert forall i :: from <= i < from + count - 1 ==> parse(ReadLine(input, i)).Ok?;
        }
      }
    }
  }

  // ---------------------------------------------------------------------
  // for node in range(nodes_nb): ... stdout.write(output)
  // ---------------------------------------------------------------------

  /** The node rows written before node n fails, or all of them. */
  predicate NodeRowsUpTo(out: seq<Output>, prefix: Option<string>, stats: Stats, nodes: nat)
    requires Shaped(stats, nodes) && |out| <= nodes
  {
    forall n :: 0 <= n < |out| ==>
      && prefix.Some?
      && |stats[0][n]| > 0
      && out[n] == NodeRow(prefix.value, n, NodeMeans(stats, nodes, n))
  }

  /** The first k turns of the node loop. `prefix` is `line[:11]` of the
      last CPU row read, `None` when `line` was never assigned. A node without rows divides by
      zero before anything is written for it. */
  function NodeRows(prefix: Option<string>, stats: Stats, nodes: nat, k: nat): (r: (seq<Output>, Option<StreamError>))
    requires Shaped(stats, nodes) && k <= nodes
    ensures |r.0| <= k && NodeRowsUpTo(r.0, prefix, stats, nodes)
    ensures r.1.None? <==> |r.0| == k
    ensures r.1.Some? ==> r.1.value == if prefix.None? then NoRowRead else EmptyNode(|r.0|)
    ensures r.1.Some? && prefix.Some? ==> |stats[0][|r.0|]| == 0
  {
    if k == 0 then ([], None)
    else
      var (front, failure) := NodeRows(prefix, stats, nodes, k - 1);
      if failure.Some? then (front, failure)
      else if prefix.None? then (front, Some(NoRowRead))
      else if |stats[0][k - 1]| == 0 then (front, Some(EmptyNode(k - 1)))
      else (front + [NodeRow(prefix.value, k - 1, NodeMeans(stats, nodes, k - 1))], None)
  }

  // ---------------------------------------------------------------------
  // average_over_node
  // ---------------------------------------------------------------------

  /** What a call of `average_over_node` leads to: the caller goes on with
      the next report, the call returned 'END' after the blank line, or an
      exception ended the program. `next` is the number of lines read. */
  datatype Status =
    | Continue(next: nat)
    | End(next: nat)
    | Crash(error: StreamError)

  datatype PassResult = PassResult(out: seq<Output>, status: Status)

  /** The `line[:11]` the node rows repeat: that of the last CPU row read. */
  function LastPrefix(rows: seq<Row>): Option<string> {
    if |rows| == 0 then None else Some(rows[|rows| - 1].prefix)
  }

  /** After the CPU rows of a report: the node rows, then the separator
      line `closing` copied, unless a node fails. */
  function Summarize(rows: seq<Row>, nodes: nat, closing: string): (r: (seq<Output>, Option<StreamError>))
    requires WellFormedRows(rows, nodes)
    ensures r.1.None? ==> |r.0| == nodes + 1 && r.0[nodes] == Text(closing)
    ensures r.1.Some? ==> |r.0| < nodes
  {
    var (body, failure) := NodeRows(LastPrefix(rows), Collect(rows, nodes), nodes, nodes);
    if failure.Some? then (body, failure)
    else (body + [Text(closing)], None)
  }

  /** The two header lines every call that is not at the blank line writes. */
  function Head(input: seq<string>, pos: nat): seq<Output> {
    [Text(RewriteHeader(ReadLine(input, pos))), Text(ReadLine(input, pos + 1))]
  }

  /** What a call writes and leads to once the header is known not to be
      blank: the two header lines, then, if the CPU rows were all read,
      the node loop and the separator; `next` is where the following call
      reads. */
  function Report(head: seq<Output>, rows: Result<seq<Row>, StreamError>, nodes: nat, closing: string, next: nat): (p: PassResult)
    requires rows.Ok? ==> WellFormedRows(rows.value, nodes)
    ensures |p.out| >= |head| && !p.status.End?
  {
    match rows
    case Fail(e) => PassResult(head, Crash(e))
    case Ok(rs) =>
      var (body, failure) := Summarize(rs, nodes, closing);
      PassResult(head + body, if failure.Some? then Crash(failure.value) else Continue(next))
  }

  /** One call of `average_over_node` reading from position pos. */
  function Pass(f: Setup, input: seq<string>, pos: nat): (p: PassResult)
    requires Ready(f)
    ensures p.status.End? <==> ReadLine(input, pos) == BlankLine
    ensures p.status.End? ==> p.out == [Text(BlankLine)] && p.status.next == pos + 1
    ensures !p.status.End? ==> |p.out| >= 2
  {
    if ReadLine(input, pos) == BlankLine then PassResult([Text(BlankLine)], End(pos + 1))
    else
      var k := Count(f.cpuNb);
      Report(Head(input, pos), ReadRows(f.parse, Count(f.nodesNb), input, pos + 2, k),
        Count(f.nodesNb), ReadLine(input, pos + 2 + k), pos + 3 + k)
  }

  /** Unless it is at the blank line, a call first writes the header with
      the CPU title replaced and then copies the line under it. */
  lemma PassHead(f: Setup, input: seq<string>, pos: nat)
    requires Ready(f) && ReadLine(input, pos) != BlankLine
    ensures var p := Pass(f, input, pos);
      && |p.out| >= 2
      && p.out[0] == Text(RewriteHeader(ReadLine(input, pos)))
      && p.out[1] == Text(ReadLine(input, pos + 1))
  {
    var k := Count(f.cpuNb);
    ReportKeepsHead(Head(input, pos), ReadRows(f.parse, Count(f.nodesNb), input, pos + 2, k),
      Count(f.nodesNb), ReadLine(input, pos + 2 + k), pos + 3 + k);
  }

  lemma ReportKeepsHead(head: seq<Output>, rows: Result<seq<Row>, StreamError>, nodes: nat, closing: string, next: nat)
    requires rows.Ok? ==> WellFormedRows(rows.value, nodes)
    ensures var p := Report(head, rows, nodes, closing, next);
      forall i :: 0 <= i < |head| ==> p.out[i] == head[i]
  {
  }

  /** A report that goes through reads its header, the line under it, one
      row per CPU and the separator, and writes the two header lines, one
      row per node and the separator. */
  lemma PassShape(f: Setup, input: seq<string>, pos: nat)
    requires Ready(f)
    ensures var p := Pass(f, input, pos);
      p.status.Continue? ==>
        && p.status.next == pos + 3 + Count(f.cpuNb)
        && |p.out| == 3 + Count(f.nodesNb)
        && p.out[|p.out| - 1] == Text(ReadLine(input, pos + 2 + Count(f.cpuNb)))
  {
    var p := Pass(f, input, pos);
    if p.status.Continue? {
      var k := Count(f.cpuNb);
      var rows := ReadRows(f.parse, Count(f.nodesNb), input, pos + 2, k);
      assert ReadLine(input, pos) != BlankLine && rows.Ok?;
      PassOfRows(f, input, pos);
    }
  }

  /** The node loop goes through exactly when there are no nodes, or a row
      was read and every node got at least one of the rows. */
  lemma SummarizeSucceeds(rows: seq<Row>, nodes: nat, closing: string)
    requires WellFormedRows(rows, nodes)
    ensures Summarize(rows, nodes, closing).1.None? <==>
      nodes == 0 || (|rows| > 0 && forall n :: 0 <= n < nodes ==> |RowsOf(rows, n)| > 0)
  {
    var stats := Collect(rows, nodes);
    forall n | 0 <= n < nodes
      ensures |stats[0][n]| == |RowsOf(rows, n)|
    {
      CollectIsColumnOfRows(rows, nodes, 0, n);
    }
    var (body, failure) := NodeRows(LastPrefix(rows), stats, nodes, nodes);
    assert Summarize(rows, nodes, closing).1 == failure;
    if failure.None? && nodes > 0 {
      assert LastPrefix(rows).Some? && |stats[0][0]| > 0;
      forall n | 0 <= n < nodes
        ensures |RowsOf(rows, n)| > 0
      {
        assert |stats[0][n]| > 0;
      }
      assert |rows| > 0;
    } else if failure.Some? && |rows| > 0 {
      assert |RowsOf(rows, |body|)| == 0;
    }
  }

  /** The first `nodes` pieces of out are one row per node, in node order,
      each with the given prefix and, for every column, the mean of that
      column over the node's own rows; so every node has rows. */
  predicate MeansOfNodes(out: seq<Output>, rows: seq<Row>, nodes: nat, prefix: string)
    requires WellFormedRows(rows, nodes)
  {
    && |out| >= nodes
    && forall n :: 0 <= n < nodes ==>
      && |RowsOf(rows, n)| > 0
      && out[n].NodeRow?
      && out[n].prefix == prefix
      && out[n].node == n
      && |out[n].means| == StatColumns
      && forall c :: 0 <= c < StatColumns ==>
           out[n].means[c] == Sum(Column(RowsOf(rows, n), c)) / (|RowsOf(rows, n)| as real)
  }

  /** When it goes through, the n-th node row carries the prefix of the last
      row, the number n and the column means over node n's own rows. */
  lemma SummarizeNodeRows(rows: seq<Row>, nodes: nat, closing: string)
    requires WellFormedRows(rows, nodes) && Summarize(rows, nodes, closing).1.None?
    ensures nodes > 0 ==> |rows| > 0 && MeansOfNodes(Summarize(rows, nodes, closing).0, rows, nodes, rows[|rows| - 1].prefix)
  {
    var stats := Collect(rows, nodes);
    var body := NodeRows(LastPrefix(rows), stats, nodes, nodes).0;
    forall n | 0 <= n < nodes
      ensures |rows| > 0 && |RowsOf(rows, n)| > 0
      ensures body[n] == NodeRow(rows[|rows| - 1].prefix, n, NodeMeans(stats, nodes, n))
      ensures forall c :: 0 <= c < StatColumns ==>
        NodeMeans(stats, nodes, n)[c] == Sum(Column(RowsOf(rows, n), c)) / (|RowsOf(rows, n)| as real)
    {
      CollectIsColumnOfRows(rows, nodes, 0, n);
      NodeMeansOfRows(rows, nodes, n);
    }
  }

  /** A call whose header is not blank and whose CPU rows all parse writes
      the two header lines and then what the node loop writes; it goes on
      past the separator unless a node fails. */
  lemma PassOfRows(f: Setup, input: seq<string>, pos: nat)
    requires Ready(f)
    requires ReadLine(input, pos) != BlankLine
    requires ReadRows(f.parse, Count(f.nodesNb), input, pos + 2, Count(f.cpuNb)).Ok?
    ensures var rows := ReadRows(f.parse, Count(f.nodesNb), input, pos + 2, Count(f.cpuNb)).value;
      var summary := Summarize(rows, Count(f.nodesNb), ReadLine(input, pos + 2 + Count(f.cpuNb)));
      Pass(f, input, pos) == PassResult(Head(input, pos) + summary.0,
        if summary.1.Some? then Crash(summary.1.value) else Continue(pos + 3 + Count(f.cpuNb)))
  {
    var k := Count(f.cpuNb);
    var rows := ReadRows(f.parse, Count(f.nodesNb), input, pos + 2, k);
    ReportOfRows(Head(input, pos), rows.value, Count(f.nodesNb), ReadLine(input, pos + 2 + k), pos + 3 + k);
  }

  lemma ReportOfRows(head: seq<Output>, rows: seq<Row>, nodes: nat, closing: string, next: nat)
    requires WellFormedRows(rows, nodes)
    ensures var summary := Summarize(rows, nodes, closing);
      Report(head, Ok(rows), nodes, closing, next) ==
        PassResult(head + summary.0, if summary.1.Some? then Crash(summary.1.value) else Continue(next))
  {
  }

  lemma AfterHead(head: seq<Output>, body: seq<Output>)
    requires |head| == 2
    ensures (head + body)[2..] == body
  {
  }

  /** A report goes through exactly when its header is not blank, all its
      CPU rows parse, and, if there are nodes, at least one row was read and
      every node got at least one of them. */
  lemma PassContinues(f: Setup, input: seq<string>, pos: nat)
    requires Ready(f)
    ensures var rows := ReadRows(f.parse, Count(f.nodesNb), input, pos + 2, Count(f.cpuNb));
      Pass(f, input, pos).status.Continue? <==>
        && ReadLine(input, pos) != BlankLine
        && rows.Ok?
        && (Count(f.nodesNb) == 0 ||
            (f.cpuNb >= 1 && forall n :: 0 <= n < Count(f.nodesNb) ==> |RowsOf(rows.value, n)| > 0))
  {
    var rows := ReadRows(f.parse, Count(f.nodesNb), input, pos + 2, Count(f.cpuNb));
    if ReadLine(input, pos) != BlankLine && rows.Ok? {
      PassOfRows(f, input, pos);
      SummarizeSucceeds(rows.value, Count(f.nodesNb), ReadLine(input, pos + 2 + Count(f.cpuNb)));
    }
  }

  /** Every node row of a report that goes through starts with the first 11
      characters of the last CPU row, numbers the nodes 0, 1, ... in order,
      and holds for each column the mean of that column over the node's own
      rows. */
  lemma PassNodeRows(f: Setup, input: seq<string>, pos: nat)
    requires Ready(f) && KeepsPrefix(f.parse) && Pass(f, input, pos).status.Continue?
    ensures ReadRows(f.parse, Count(f.nodesNb), input, pos + 2, Count(f.cpuNb)).Ok?
    ensures MeansOfNodes(Pass(f, input, pos).out[2..],
      ReadRows(f.parse, Count(f.nodesNb), input, pos + 2, Count(f.cpuNb)).value,
      Count(f.nodesNb), Take(ReadLine(input, pos + 1 + Count(f.cpuNb)), RowPrefixWidth))
  {
    var k := Count(f.cpuNb);
    ContinueReadsRows(f, input, pos);
    PassOfRows(f, input, pos);
    RowsThenMeans(f.parse, Count(f.nodesNb), input, pos + 2, k, pos + 1 + k, Head(input, pos), ReadLine(input, pos + 2 + k));
  }

  /** The pieces behind the header lines of a report whose rows were all
      read and whose node loop goes through: one row of means per node,
      each with `line[:11]` of the last CPU row. */
  lemma RowsThenMeans(parse: RowParse, nodes: nat, input: seq<string>, from: nat, count: nat, last: nat,
                      head: seq<Output>, closing: string)
    requires RowReader(parse, nodes) && KeepsPrefix(parse) && last + 1 == from + count && |head| == 2
    requires ReadRows(parse, nodes, input, from, count).Ok?
    requires Summarize(ReadRows(parse, nodes, input, from, count).value, nodes, closing).1.None?
    ensures var rows := ReadRows(parse, nodes, input, from, count).value;
      MeansOfNodes((head + Summarize(rows, nodes, closing).0)[2..], rows, nodes, Take(ReadLine(input, last), RowPrefixWidth))
  {
    LastRowPrefix(parse, nodes, input, from, count, last);
    SummaryAfterHead(head, ReadRows(parse, nodes, input, from, count).value, nodes, closing,
      Take(ReadLine(input, last), RowPrefixWidth));
  }

  /** A report that goes through had a header and CPU rows that all parsed,
      and no node failed. */
  lemma ContinueReadsRows(f: Setup, input: seq<string>, pos: nat)
    requires Ready(f) && Pass(f, input, pos).status.Continue?
    ensures ReadLine(input, pos) != BlankLine
    ensures ReadRows(f.parse, Count(f.nodesNb), input, pos + 2, Count(f.cpuNb)).Ok?
    ensures Summarize(ReadRows(f.parse, Count(f.nodesNb), input, pos + 2, Count(f.cpuNb)).value,
      Count(f.nodesNb), ReadLine(input, pos + 2 + Count(f.cpuNb))).1.None?
  {
  }

  /** The last row read remembers the first 11 characters of its line. */
  lemma LastRowPrefix(parse: RowParse, nodes: nat, input: seq<string>, from: nat, count: nat, last: int)
    requires RowReader(parse, nodes) && KeepsPrefix(parse) && last + 1 == from + count
    requires ReadRows(parse, nodes, input, from, count).Ok?
    ensures var rows := ReadRows(parse, nodes, input, from, count).value;
      |rows| > 0 ==> last >= 0 && rows[|rows| - 1].prefix == Take(ReadLine(input, last), RowPrefixWidth)
  {
    if count > 0 {
      var line := ReadLine(input, last);
      assert parse(line) == Ok(ReadRows(parse, nodes, input, from, count).value[count - 1]);
    }
  }

  /** Behind the two header lines, a node loop that goes through writes one
      row of means per node, each with the prefix of the last row. */
  lemma SummaryAfterHead(head: seq<Output>, rows: seq<Row>, nodes: nat, closing: string, prefix: string)
    requires WellFormedRows(rows, nodes) && Summarize(rows, nodes, closing).1.None?
    requires |head| == 2
    requires |rows| > 0 ==> rows[|rows| - 1].prefix == prefix
    ensures MeansOfNodes((head + Summarize(rows, nodes, closing).0)[2..], rows, nodes, prefix)
  {
    AfterHead(head, Summarize(rows, nodes, closing).0);
    if nodes > 0 {
      SummarizeNodeRows(rows, nodes, closing);
    }
  }

  /** Past the end of the input every call reads only "": it fails on the
      first CPU row when there is one to read, fails for want of a row when
      there are nodes but no CPUs, and otherwise writes the same three
      pieces and reports success, consuming nothing real. */
  lemma PassPastEnd(f: Setup, input: seq<string>, pos: nat)
    requires Ready(f) && pos >= |input|
    ensures var p := Pass(f, input, pos);
      && p.out[..2] == [Text(NodeTitle), Text("")]
      && (f.cpuNb >= 1 ==> p.status == Crash(MissingCpuId("")))
      && (f.cpuNb < 1 && f.nodesNb >= 1 ==> p.status == Crash(NoRowRead))
      && (f.cpuNb < 1 && f.nodesNb < 1 ==> p == PassResult([Text(NodeTitle), Text(""), Text("")], Continue(pos + 3)))
  {
    assert ReadLine(input, pos) == "" && ReadLine(input, pos + 1) == "";
    assert RewriteHeader("") == NodeTitle;
    if f.cpuNb >= 1 {
      ReadRowsLines(f.parse, Count(f.nodesNb), input, pos + 2, Count(f.cpuNb));
      assert f.parse(ReadLine(input, pos + 2)) == Fail(MissingCpuId(""));
    }
  }

  // ---------------------------------------------------------------------
  // modify_mpstat_output
  // ---------------------------------------------------------------------

  /** How the program ends: normally, with an exception, or never, writing
      the same three pieces forever. */
  datatype RunStatus = Finished | Failed(error: StreamError) | Diverges

  /** Everything written, and how the program ends; for `Diverges`, what is
      written before the endless repetition. */
  datatype Transcript = Transcript(out: seq<Output>, status: RunStatus)

  /** `while True: if average_over_node(...) == "END": break` followed by
      one more `average_over_node(...)` for the final averages, from pos. */
  function Blocks(f: Setup, input: seq<string>, pos: nat): (r: Transcript)
    requires Ready(f)
    decreases if pos < |input| then |input| - pos else 0
  {
    var p := Pass(f, input, pos);
    match p.status
    case Crash(e) => Transcript(p.out, Failed(e))
    case End(next) =>
      var q := Pass(f, input, next);
      Transcript(p.out + q.out, if q.status.Crash? then Failed(q.status.error) else Finished)
    case Continue(next) =>
      if pos >= |input| then Transcript(p.out, Diverges)
      else
        var rest := Blocks(f, input, next);
        Transcript(p.out + rest.out, rest.status)
  }

  /** `modify_mpstat_output`: the two lines of system information are copied,
      then the reports are rewritten. */
  function Rewrite(f: Setup, input: seq<string>): (r: Transcript)
    requires Ready(f)
    ensures |r.out| >= 3
    ensures r.out[..2] == [Text(ReadLine(input, 0)), Text(ReadLine(input, 1))]
  {
    var rest := Blocks(f, input, 2);
    assert |rest.out| >= 1 by {
      assert |Pass(f, input, 2).out| >= 1;
    }
    Transcript([Text(ReadLine(input, 0)), Text(ReadLine(input, 1))] + rest.out, rest.status)
  }

  /** `modify_mpstat_output(cpu_numa, cpu_nb, nodes_nb)` with the result of
      `CPU_NUMA`. */
  function Run(t: Topology, input: seq<string>): (r: Transcript)
    requires LabelsOnly(t.cpuNuma)
    ensures |r.out| >= 3
    ensures r.out[..2] == [Text(ReadLine(input, 0)), Text(ReadLine(input, 1))]
  {
    Rewrite(SetupOf(t), input)
  }

  /** The filter loops forever only when neither CPUs nor nodes were
      counted: with a CPU to read, the input running out ends the program
      with an exception on the missing row. */
  lemma {:induction false} DivergesOnlyWithoutCounts(f: Setup, input: seq<string>, pos: nat)
    requires Ready(f) && Blocks(f, input, pos).status == Diverges
    ensures f.cpuNb < 1 && f.nodesNb < 1
    decreases if pos < |input| then |input| - pos else 0
  {
    var p := Pass(f, input, pos);
    if pos >= |input| {
      PassPastEnd(f, input, pos);
    } else {
      assert p.status.Continue?;
      DivergesOnlyWithoutCounts(f, input, p.status.next);
    }
  }

  /** ... and then it does loop forever once the input is used up without a
      blank line: every later call starts past the end and goes through. */
  lemma DivergesPastEnd(f: Setup, input: seq<string>, pos: nat)
    requires Ready(f) && pos >= |input| && f.cpuNb < 1 && f.nodesNb < 1
    ensures Blocks(f, input, pos) == Transcript([Text(NodeTitle), Text(""), Text("")], Diverges)
  {
    PassPastEnd(f, input, pos);
  }

  /** After the blank line exactly one more report is read, for the final
      averages, and the program ends with it whatever follows. */
  lemma BlankLineEndsLoop(f: Setup, input: seq<string>, pos: nat)
    requires Ready(f) && ReadLine(input, pos) == BlankLine
    ensures var q := Pass(f, input, pos + 1);
      Blocks(f, input, pos) == Transcript([Text(BlankLine)] + q.out,
        if q.status.Crash? then Failed(q.status.error) else Finished)
  {
  }

  /** The report at position q is reached from the one at pos: every report
      from pos up to q goes through, each starting where the previous one
      stopped reading. */
  predicate Reaches(f: Setup, input: seq<string>, pos: nat, q: nat)
    requires Ready(f)
    decreases if pos < |input| then |input| - pos else 0
  {
    || pos == q
    || (pos < |input| && Pass(f, input, pos).status.Continue? && Reaches(f, input, Pass(f, input, pos).status.next, q))
  }

  /** What the reports from pos up to, not including, q write, in order. */
  function PassesUpTo(f: Setup, input: seq<string>, pos: nat, q: nat): seq<Output>
    requires Ready(f) && Reaches(f, input, pos, q)
    decreases if pos < |input| then |input| - pos else 0
  {
    if pos == q then []
    else Pass(f, input, pos).out + PassesUpTo(f, input, Pass(f, input, pos).status.next, q)
  }

  /** Up to a report it reaches, the loop writes the reports in between,
      then what it writes from that report on, and ends as that does. */
  lemma {:induction false} BlocksThrough(f: Setup, input: seq<string>, pos: nat, q: nat)
    requires Ready(f) && Reaches(f, input, pos, q)
    ensures Blocks(f, input, pos) ==
      Transcript(PassesUpTo(f, input, pos, q) + Blocks(f, input, q).out, Blocks(f, input, q).status)
    decreases if pos < |input| then |input| - pos else 0
  {
    if pos != q {
      var p := Pass(f, input, pos);
      var next := p.status.next;
      BlocksThrough(f, input, next, q);
      assert Blocks(f, input, pos) == Transcript(p.out + Blocks(f, input, next).out, Blocks(f, input, next).status);
      assert PassesUpTo(f, input, pos, q) == p.out + PassesUpTo(f, input, next, q);
      Assoc(p.out, PassesUpTo(f, input, next, q), Blocks(f, input, q).out);
    }
  }

  /** A loop that ends normally reaches a blank header. */
  lemma {:induction false} FinishedReachesBlank(f: Setup, input: seq<string>, pos: nat)
    requires Ready(f) && Blocks(f, input, pos).status == Finished
    ensures exists q: nat :: Reaches(f, input, pos, q) && ReadLine(input, q) == BlankLine
    decreases if pos < |input| then |input| - pos else 0
  {
    var p := Pass(f, input, pos);
    if p.status.End? {
      assert Reaches(f, input, pos, pos);
    } else {
      FinishedReachesBlank(f, input, p.status.next);
      var q: nat :| Reaches(f, input, p.status.next, q) && ReadLine(input, q) == BlankLine;
      assert Reaches(f, input, pos, q);
    }
  }

  /** A loop that raises reaches a report that raises or a blank header. */
  lemma {:induction false} FailedReachesStop(f: Setup, input: seq<string>, pos: nat)
    requires Ready(f) && Blocks(f, input, pos).status.Failed?
    ensures exists q: nat :: Reaches(f, input, pos, q) && !Pass(f, input, q).status.Continue?
    decreases if pos < |input| then |input| - pos else 0
  {
    var p := Pass(f, input, pos);
    if p.status.Continue? {
      FailedReachesStop(f, input, p.status.next);
      var q: nat :| Reaches(f, input, p.status.next, q) && !Pass(f, input, q).status.Continue?;
      assert Reaches(f, input, pos, q);
    } else {
      assert Reaches(f, input, pos, pos);
    }
  }

  /** The program ends normally only after a run of reports that go through
      reaches a blank header, and the one report after it raises nothing;
      everything written is those reports, the blank line and that last
      report. */
  lemma BlocksFinished(f: Setup, input: seq<string>, pos: nat)
    requires Ready(f) && Blocks(f, input, pos).status == Finished
    ensures exists q: nat ::
      && Reaches(f, input, pos, q)
      && ReadLine(input, q) == BlankLine
      && !Pass(f, input, q + 1).status.Crash?
      && Blocks(f, input, pos).out == PassesUpTo(f, input, pos, q) + ([Text(BlankLine)] + Pass(f, input, q + 1).out)
  {
    FinishedReachesBlank(f, input, pos);
    var q: nat :| Reaches(f, input, pos, q) && ReadLine(input, q) == BlankLine;
    BlocksThrough(f, input, pos, q);
    BlankLineEndsLoop(f, input, q);
  }

  /** The program ends with an exception only when, after a run of reports
      that go through, a report raises it, or the one report after a blank
      header does; everything written up to that point is kept. */
  lemma BlocksFailed(f: Setup, input: seq<string>, pos: nat)
    requires Ready(f) && Blocks(f, input, pos).status.Failed?
    ensures exists q: nat ::
      && Reaches(f, input, pos, q)
      && (|| (Pass(f, input, q).status == Crash(Blocks(f, input, pos).status.error)
              && Blocks(f, input, pos).out == PassesUpTo(f, input, pos, q) + Pass(f, input, q).out)
          || (ReadLine(input, q) == BlankLine
              && Pass(f, input, q + 1).status == Crash(Blocks(f, input, pos).status.error)
              && Blocks(f, input, pos).out == PassesUpTo(f, input, pos, q) + ([Text(BlankLine)] + Pass(f, input, q + 1).out)))
  {
    FailedReachesStop(f, input, pos);
    var q: nat :| Reaches(f, input, pos, q) && !Pass(f, input, q).status.Continue?;
    BlocksThrough(f, input, pos, q);
    if Pass(f, input, q).status.End? {
      BlankLineEndsLoop(f, input, q);
    }
  }

  /** The filter ends normally only after the reports from line 2 on reach
      a blank header and the report after it raises nothing: it writes the
      two copied lines, those reports, the blank line and the last report. */
  lemma RunFinished(t: Topology, input: seq<string>)
    requires LabelsOnly(t.cpuNuma) && Run(t, input).status == Finished
    ensures var f := SetupOf(t);
      exists q: nat ::
        && Reaches(f, input, 2, q)
        && ReadLine(input, q) == BlankLine
        && !Pass(f, input, q + 1).status.Crash?
        && Run(t, input).out == [Text(ReadLine(input, 0)), Text(ReadLine(input, 1))]
             + (PassesUpTo(f, input, 2, q) + ([Text(BlankLine)] + Pass(f, input, q + 1).out))
  {
    var f := SetupOf(t);
    assert Run(t, input) == Rewrite(f, input);
    BlocksFinished(f, input, 2);
  }
}
