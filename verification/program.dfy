/** The script as a whole: `CPU_NUMA` on the lscpu listing, then
    `modify_mpstat_output` on standard input with what it returned. */
module Program {
  import opened Wrappers
  import opened Topology
  import opened Stream

  /** The program either stops while reading the lscpu listing, before
      anything is written, or filters standard input. */
  datatype Outcome =
    | NoTopology(error: TopologyError)
    | Filtered(topology: Topology, transcript: Transcript)

  /** `cpu_numa, cpu_nb, nodes_nb = CPU_NUMA(...)` followed by
      `modify_mpstat_output(cpu_numa, cpu_nb, nodes_nb)`. The script is the
      `AsWritten` reading; `Intended` runs it with the count line no longer
      taken for a node line. */
  function Mpstat2Node(lscpu: seq<string>, input: seq<string>, reading: Reading): (r: Outcome)
    ensures r.NoTopology? <==> CpuNuma(lscpu, reading).Fail?
    ensures r.NoTopology? ==> r.error == CpuNuma(lscpu, reading).error
    ensures r.Filtered? ==>
      && r.topology == CpuNuma(lscpu, reading).value
      && r.transcript == Run(r.topology, input)
      && r.topology.cpuNb == |r.topology.cpuNuma|
      && |r.transcript.out| >= 3
      && r.transcript.out[..2] == [Text(ReadLine(input, 0)), Text(ReadLine(input, 1))]
  {
    match CpuNuma(lscpu, reading)
    case Fail(e) => NoTopology(e)
    case Ok(t) => Filtered(t, Run(t, input))
  }

  /** The program can only hang when the listing declares no CPU at all and
      no node: a declared CPU is a row to read, and the input running out
      turns it into an exception. */
  lemma HangsOnlyWithoutCpus(lscpu: seq<string>, input: seq<string>, reading: Reading)
    requires Mpstat2Node(lscpu, input, reading).Filtered?
    requires Mpstat2Node(lscpu, input, reading).transcript.status == Diverges
    ensures Mpstat2Node(lscpu, input, reading).topology.cpuNb == 0
    ensures Mpstat2Node(lscpu, input, reading).topology.nodesNb < 1
  {
    var t := CpuNuma(lscpu, reading).value;
    DivergesOnlyWithoutCounts(SetupOf(t), input, 2);
  }
}
