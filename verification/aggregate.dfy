/** The arithmetic core of `average_over_node`: reading one per-CPU row,
    bucketing its ten statistics by node, and the per-node means. */
module Aggregate {
  import opened Wrappers
  import opened PyText
  import opened Numerals
  import opened Topology

  /** `STAT_COLUMNS`: the number of statistics read from every CPU row. */
  const StatColumns: nat := 10

  /** The CPU id starts after this many characters of a row (`line[11:]`),
      and the same characters start every emitted node row (`line[:11]`). */
  const RowPrefixWidth: nat := 11

  /** One CPU row as the loop uses it: its first 11 characters (`line[:11]`,
      the time stamp the node rows repeat), its CPU id, the position of its
      node's list in `statistics[col]`, and its ten values. */
  datatype Row = Row(prefix: string, cpu: string, node: nat, values: seq<real>)

  /** The exceptions `average_over_node` can raise. */
  datatype StreamError =
    | MissingCpuId(line: string)   // words[0] of a row without words
    | UnknownCpu(cpu: string)      // cpu_numa[cpu] raised KeyError
    | BadNodeLabel(text: string)   // int(cpu_numa[cpu]) raised ValueError
    | NodeOutOfRange(index: int)   // statistics[col][node] raised IndexError
    | MissingValue(column: nat)    // words[col + 1] raised IndexError
    | BadNumber(token: string)     // float(...) raised ValueError
    | NoRowRead                    // `line` unbound: no CPU row was read
    | EmptyNode(empty: nat)        // sum([]) / float(0) raised ZeroDivisionError

  /** `range(n)` has max(n, 0) elements. */
  function Count(n: int): nat {
    if n < 0 then 0 else n
  }

  /** The element Python's `xs[i]` denotes in a list of `size` elements,
      negative positions counting from the end; `None` is an IndexError. */
  function ListIndex(i: int, size: nat): (r: Option<nat>)
    ensures r.Some? <==> -(size as int) <= i < size
    ensures r.Some? ==> r.value < size && (r.value - i) % size == 0
  {
    if 0 <= i < size then Some(i)
    else if -(size as int) <= i < 0 then Some(i + size)
    else None
  }

  /** `statistics[col][int(label)]` with any label: the IndexError,
      ValueError or position Python's `int` and list indexing give. */
  function IndexOfLabel(node: string, nodes: nat): Result<nat, StreamError> {
    match ParseInt(node)
    case None => Fail(BadNodeLabel(node))
    case Some(n) =>
      match ListIndex(n, nodes)
      case None => Fail(NodeOutOfRange(n))
      case Some(k) => Ok(k)
  }

  /** `int(cpu_numa[cpu])` used as a position in `statistics[col]`, for the
      one-character labels `CPU_NUMA` stores: `int` of such a label is its
      digit, or a ValueError. */
  function NodeOf(t: Topology, cpu: string): (r: Result<nat, StreamError>)
    requires LabelsOnly(t.cpuNuma)
    ensures r.Ok? ==> cpu in t.cpuNuma && r.value < Count(t.nodesNb)
  {
    if cpu !in t.cpuNuma then Fail(UnknownCpu(cpu))
    else
      var c := t.cpuNuma[cpu][0];
      if !IsDigit(c) then Fail(BadNodeLabel(t.cpuNuma[cpu]))
      else
        match ListIndex(DigitValue(c), Count(t.nodesNb))
        case None => Fail(NodeOutOfRange(DigitValue(c)))
        case Some(k) => Ok(k)
  }

  /** The node found for a CPU is what Python's `int` and list indexing
      make of its label, errors included. */
  lemma NodeOfIsIndexOfLabel(t: Topology, cpu: string)
    requires LabelsOnly(t.cpuNuma) && cpu in t.cpuNuma
    ensures NodeOf(t, cpu) == IndexOfLabel(t.cpuNuma[cpu], Count(t.nodesNb))
  {
    var lbl := t.cpuNuma[cpu];
    assert IsLabel(lbl);
    IndexOfOneCharLabel(lbl, Count(t.nodesNb));
  }

  /** `int` of a one-character label is its digit or a ValueError. */
  lemma IndexOfOneCharLabel(lbl: string, nodes: nat)
    requires IsLabel(lbl)
    ensures !IsDigit(lbl[0]) ==> IndexOfLabel(lbl, nodes) == Fail(BadNodeLabel(lbl))
    ensures IsDigit(lbl[0]) ==> ParseInt(lbl) == Some(DigitValue(lbl[0]) as int)
  {
    assert lbl == [lbl[0]];
    ParseIntOfChar(lbl[0]);
  }

  /** A row's node is found exactly when the CPU is in the map and its label
      is a digit below `nodes_nb`, and then it is that digit. */
  lemma NodeOfLabel(t: Topology, cpu: string)
    requires LabelsOnly(t.cpuNuma)
    ensures NodeOf(t, cpu).Ok? <==>
      cpu in t.cpuNuma && IsDigit(t.cpuNuma[cpu][0]) && DigitValue(t.cpuNuma[cpu][0]) < t.nodesNb
    ensures NodeOf(t, cpu).Ok? ==> NodeOf(t, cpu).value == DigitValue(t.cpuNuma[cpu][0])
  {
  }

  /** How a token is read as a number: `float`, which the row parser
      instantiates with `ParseDecimal`. */
  type Float = string -> Option<real>

  /** `vs` are the values of the words after the first, one for one. */
  predicate Decodes(float: Float, words: seq<string>, vs: seq<real>) {
    |vs| < |words| && forall j :: 1 <= j <= |vs| ==> float(words[j]) == Some(vs[j - 1])
  }

  /** Every one of the words 1 .. count is a decimal number. */
  predicate AllDecimal(float: Float, words: seq<string>, count: nat)
    requires count < |words|
  {
    forall j :: 1 <= j <= count ==> float(words[j]).Some?
  }

  lemma DecodesSnoc(float: Float, words: seq<string>, vs: seq<real>, v: real)
    requires Decodes(float, words, vs) && |vs| + 1 < |words|
    requires float(words[|vs| + 1]) == Some(v)
    ensures Decodes(float, words, vs + [v])
  {
    var ws := vs + [v];
    forall j | 1 <= j <= |ws|
      ensures float(words[j]) == Some(ws[j - 1])
    {
      if j <= |vs| {
        assert ws[j - 1] == vs[j - 1];
      }
    }
  }

  /** `float(words[col + 1])` for col in 0 .. count - 1, in order. */
  function ParseValues(float: Float, words: seq<string>, count: nat): (r: Result<seq<real>, StreamError>)
    requires words != []
    ensures r.Ok? ==> |r.value| == count && Decodes(float, words, r.value)
  {
    if count == 0 then Ok([])
    else
      var front := ParseValues(float, words, count - 1);
      if front.Fail? then Fail(front.error)
      else if count >= |words| then Fail(MissingValue(count - 1))
      else
        var v := float(words[count]);
        if v.None? then Fail(BadNumber(words[count]))
        else
          DecodesSnoc(float, words, front.value, v.value);
          Ok(front.value + [v.value])
  }

  /** The values are read exactly when there are enough words and each of
      them is a decimal number. */
  lemma {:induction false} ParseValuesSucceeds(float: Float, words: seq<string>, count: nat)
    requires words != []
    ensures ParseValues(float, words, count).Ok? <==> count < |words| && AllDecimal(float, words, count)
  {
    if count > 0 {
      ParseValuesSucceeds(float, words, count - 1);
      if count < |words| && AllDecimal(float, words, count) {
        assert AllDecimal(float, words, count - 1);
      }
    }
  }

  predicate WellFormedRow(row: Row, nodes: nat) {
    row.node < nodes && |row.values| == StatColumns
  }

  /** One turn of `for i in range(cpu_nb)`: the CPU id is the first word after
      the 11-character prefix, its node comes from the map, and the ten words
      after the id are its values. */
  function ParseRow(t: Topology, line: string): (r: Result<Row, StreamError>)
    requires LabelsOnly(t.cpuNuma)
    ensures r.Ok? ==> WellFormedRow(r.value, Count(t.nodesNb))
    ensures r.Ok? ==> var words := Words(Drop(line, RowPrefixWidth));
      && r.value.prefix == Take(line, RowPrefixWidth)
      && words != [] && r.value.cpu == words[0]
      && NodeOf(t, words[0]) == Ok(r.value.node)
      && |words| > StatColumns
      && forall c :: 0 <= c < StatColumns ==> ParseDecimal(words[c + 1]) == Some(r.value.values[c])
  {
    var words := Words(Drop(line, RowPrefixWidth));
    if |words| == 0 then Fail(MissingCpuId(line))
    else
      match NodeOf(t, words[0])
      case Fail(e) => Fail(e)
      case Ok(node) =>
        match ParseValues(ParseDecimal, words, StatColumns)
        case Fail(e) => Fail(e)
        case Ok(values) => Ok(Row(Take(line, RowPrefixWidth), words[0], node, values))
  }

  /** A row is read exactly when it has a CPU id whose node is found and ten
      decimal words after it; otherwise the first of these that is missing
      is the exception. */
  lemma ParseRowSucceeds(t: Topology, line: string)
    requires LabelsOnly(t.cpuNuma)
    ensures var words := Words(Drop(line, RowPrefixWidth));
      ParseRow(t, line).Ok? <==>
        words != [] && NodeOf(t, words[0]).Ok? && StatColumns < |words| && AllDecimal(ParseDecimal, words, StatColumns)
    ensures var words := Words(Drop(line, RowPrefixWidth));
      && (words == [] ==> ParseRow(t, line) == Fail(MissingCpuId(line)))
      && (words != [] && NodeOf(t, words[0]).Fail? ==> ParseRow(t, line) == Fail(NodeOf(t, words[0]).error))
  {
    var words := Words(Drop(line, RowPrefixWidth));
    if words != [] {
      ParseValuesSucceeds(ParseDecimal, words, StatColumns);
    }
  }

  /** A row shorter than the prefix, in particular the "" read past the end
      of the input, has no CPU id. */
  lemma ShortRowHasNoCpu(t: Topology, line: string)
    requires LabelsOnly(t.cpuNuma) && |line| <= RowPrefixWidth
    ensures ParseRow(t, line) == Fail(MissingCpuId(line))
  {
  }

  // ---------------------------------------------------------------------
  // statistics[col][node]
  // ---------------------------------------------------------------------

  /** `statistics`: for every column and node, the values appended so far. */
  type Stats = seq<seq<seq<real>>>

  /** Ten columns of `nodes` lists each, and every column of a node as long
      as every other: each row appends to all ten. */
  predicate Shaped(stats: Stats, nodes: nat) {
    && |stats| == StatColumns
    && (forall c :: 0 <= c < StatColumns ==> |stats[c]| == nodes)
    && (forall c, n :: 0 <= c < StatColumns && 0 <= n < nodes ==> |stats[c][n]| == |stats[0][n]|)
  }

  /** `[[[] for j in range(nodes_nb)] for col in range(STAT_COLUMNS)]`. */
  function NoStats(nodes: nat): (s: Stats)
    ensures Shaped(s, nodes)
    ensures forall c, n :: 0 <= c < StatColumns && 0 <= n < nodes ==> s[c][n] == []
  {
    seq(StatColumns, c => seq(nodes, n => []))
  }

  /** `statistics[col][node].append(value)` for the ten columns of one row. */
  function AddRow(stats: Stats, nodes: nat, row: Row): (r: Stats)
    requires Shaped(stats, nodes) && WellFormedRow(row, nodes)
    ensures Shaped(r, nodes)
    ensures forall c, n :: 0 <= c < StatColumns && 0 <= n < nodes ==>
      r[c][n] == if n == row.node then stats[c][n] + [row.values[c]] else stats[c][n]
  {
    seq(StatColumns, c requires 0 <= c < StatColumns =>
      stats[c][row.node := stats[c][row.node] + [row.values[c]]])
  }

  predicate WellFormedRows(rows: seq<Row>, nodes: nat) {
    forall i :: 0 <= i < |rows| ==> WellFormedRow(rows[i], nodes)
  }

  /** The buckets after the rows have been read, in order. */
  function Collect(rows: seq<Row>, nodes: nat): (s: Stats)
    requires WellFormedRows(rows, nodes)
    ensures Shaped(s, nodes)
  {
    if |rows| == 0 then NoStats(nodes)
    else AddRow(Collect(rows[..|rows| - 1], nodes), nodes, rows[|rows| - 1])
  }

  // ---------------------------------------------------------------------
  // Reference: the rows of a node and their column sums
  // ---------------------------------------------------------------------

  /** The rows whose CPU belongs to node n, in input order. */
  function RowsOf(rows: seq<Row>, n: nat): (rs: seq<Row>)
    ensures |rs| <= |rows|
    ensures forall i :: 0 <= i < |rs| ==> rs[i].node == n && rs[i] in rows
  {
    if |rows| == 0 then []
    else
      var front := RowsOf(rows[..|rows| - 1], n);
      if rows[|rows| - 1].node == n then front + [rows[|rows| - 1]] else front
  }

  /** Column c of the rows. */
  function Column(rows: seq<Row>, c: nat): (xs: seq<real>)
    requires forall i :: 0 <= i < |rows| ==> c < |rows[i].values|
    ensures |xs| == |rows|
  {
    seq(|rows|, i requires 0 <= i < |rows| => rows[i].values[c])
  }

  /** Python's `sum` over a list of values, left to right. */
  function Sum(xs: seq<real>): real {
    if |xs| == 0 then 0.0 else Sum(xs[..|xs| - 1]) + xs[|xs| - 1]
  }

  function Mean(xs: seq<real>): real
    requires |xs| > 0
  {
    Sum(xs) / (|xs| as real)
  }

  /** The buckets hold, for each column and node, exactly that column of the
      node's rows in input order. */
  lemma {:induction false} CollectIsColumnOfRows(rows: seq<Row>, nodes: nat, c: nat, n: nat)
    requires WellFormedRows(rows, nodes)
    requires c < StatColumns && n < nodes
    ensures Collect(rows, nodes)[c][n] == Column(RowsOf(rows, n), c)
    decreases |rows|
  {
    if |rows| > 0 {
      var front := rows[..|rows| - 1];
      assert WellFormedRows(front, nodes);
      CollectIsColumnOfRows(front, nodes, c, n);
      var last := rows[|rows| - 1];
      if last.node == n {
        var rs := RowsOf(front, n);
        assert Column(rs + [last], c) == Column(rs, c) + [last.values[c]];
      }
    }
  }

  /** Every row read lands in exactly one node's bucket: over all nodes the
      buckets hold as many values as there were rows. */
  lemma {:induction false} RowsOfPartition(rows: seq<Row>, nodes: nat)
    requires WellFormedRows(rows, nodes)
    ensures SumCounts(rows, nodes) == |rows|
    decreases |rows|
  {
    if |rows| > 0 {
      var front := rows[..|rows| - 1];
      assert WellFormedRows(front, nodes);
      RowsOfPartition(front, nodes);
      CountsStep(rows, nodes, nodes);
    } else {
      NoRowsNoCounts(rows, nodes);
    }
  }

  /** The sum of |RowsOf(rows, n)| over n < k. */
  function SumCounts(rows: seq<Row>, k: nat): nat {
    if k == 0 then 0 else SumCounts(rows, k - 1) + |RowsOf(rows, k - 1)|
  }

  lemma {:induction false} NoRowsNoCounts(rows: seq<Row>, k: nat)
    requires rows == []
    ensures SumCounts(rows, k) == 0
  {
    if k > 0 {
      NoRowsNoCounts(rows, k - 1);
    }
  }

  lemma {:induction false} CountsStep(rows: seq<Row>, nodes: nat, k: nat)
    requires |rows| > 0 && WellFormedRows(rows, nodes) && k <= nodes
    ensures SumCounts(rows, k)
         == SumCounts(rows[..|rows| - 1], k) + (if rows[|rows| - 1].node < k then 1 else 0)
  {
    if k > 0 {
      CountsStep(rows, nodes, k - 1);
    }
  }

  /** The mean lies between the smallest and the largest value. */
  lemma {:induction false} MeanBounds(xs: seq<real>, lo: real, hi: real)
    requires |xs| > 0
    requires forall i :: 0 <= i < |xs| ==> lo <= xs[i] <= hi
    ensures lo <= Mean(xs) <= hi
  {
    SumBounds(xs, lo, hi);
    var k := |xs| as real;
    assert k * lo <= Sum(xs) <= k * hi;
    assert Mean(xs) * k == Sum(xs);
  }

  lemma {:induction false} SumBounds(xs: seq<real>, lo: real, hi: real)
    requires forall i :: 0 <= i < |xs| ==> lo <= xs[i] <= hi
    ensures (|xs| as real) * lo <= Sum(xs) <= (|xs| as real) * hi
    decreases |xs|
  {
    if |xs| > 0 {
      var front := xs[..|xs| - 1];
      assert forall i :: 0 <= i < |front| ==> front[i] == xs[i];
      SumBounds(front, lo, hi);
      var k := |front| as real;
      var last := xs[|xs| - 1];
      assert Sum(xs) == Sum(front) + last;
      assert lo <= last <= hi;
      assert |xs| as real == k + 1.0;
      assert (k + 1.0) * lo == k * lo + lo;
      assert (k + 1.0) * hi == k * hi + hi;
    }
  }

  /** When every CPU of a node reports the same value in a column, the node's
      mean for that column is that value. */
  lemma MeanOfEqualValues(xs: seq<real>, v: real)
    requires |xs| > 0
    requires forall i :: 0 <= i < |xs| ==> xs[i] == v
    ensures Mean(xs) == v
  {
    MeanBounds(xs, v, v);
  }

  /** `sum(statistics[col][node]) / float(len(statistics[col][node]))` for
      the ten columns of one node. */
  function NodeMeans(stats: Stats, nodes: nat, n: nat): (means: seq<real>)
    requires Shaped(stats, nodes) && n < nodes && |stats[0][n]| > 0
    ensures |means| == StatColumns
  {
    seq(StatColumns, c requires 0 <= c < StatColumns => Mean(stats[c][n]))
  }

  /** The means of one node are the column means of its own rows: the
      divisor is how many of the rows read belong to the node. */
  lemma NodeMeansOfRows(rows: seq<Row>, nodes: nat, n: nat)
    requires WellFormedRows(rows, nodes) && n < nodes
    requires |RowsOf(rows, n)| > 0
    ensures |Collect(rows, nodes)[0][n]| > 0
    ensures forall c :: 0 <= c < StatColumns ==>
      NodeMeans(Collect(rows, nodes), nodes, n)[c]
        == Sum(Column(RowsOf(rows, n), c)) / (|RowsOf(rows, n)| as real)
  {
    forall c | 0 <= c < StatColumns
      ensures Collect(rows, nodes)[c][n] == Column(RowsOf(rows, n), c)
    {
      CollectIsColumnOfRows(rows, nodes, c, n);
    }
  }
}
