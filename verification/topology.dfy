/** `CPU_NUMA`: reading the lines of an `lscpu` listing into a map from CPU id
    to NUMA node label, together with the declared CPU and node counts. */
module Topology {
  import opened Wrappers
  import opened PyText
  import opened Numerals

  /** What `CPU_NUMA` returns: `cpu_numa`, `cpu_nb` and `nodes_nb`. */
  datatype Topology = Topology(cpuNuma: map<string, string>, cpuNb: int, nodesNb: int)

  /** The ways `CPU_NUMA` ends the program instead of returning. */
  datatype TopologyError =
    | BadCount(line: string)              // int() of a count raised ValueError
    | BadRangeEnd(text: string)           // int() of one end of an a-b range raised
    | NoCpuCount                          // cpu_nb was never bound
    | CountMismatch(mapped: nat, declared: int)  // "Error in CPU - node association!"
    | NoNodeCount                         // nodes_nb was never bound

  const CpuCountTag := "CPU(s):"
  const NodeCountTag := "NUMA node(s):"
  const NodeLineTag := "NUMA node"

  /** Python's `line[:len(tag)] == tag`. */
  predicate Tagged(line: string, tag: string) {
    Take(line, |tag|) == tag
  }

  /** The labels `CPU_NUMA` stores are one character that is not white space. */
  predicate IsLabel(node: string) {
    |node| == 1 && !IsSpace(node[0])
  }

  predicate LabelsOnly(m: map<string, string>) {
    forall k :: k in m ==> IsLabel(m[k])
  }

  /** Every key of `keys` mapped to the label `node`. */
  function KeysTo(keys: set<string>, node: string): map<string, string> {
    map k | k in keys :: node
  }

  // ---------------------------------------------------------------------
  // The words of a node line
  // ---------------------------------------------------------------------

  /** A line that starts with "NUMA node" has at least two words, the first
      of them "NUMA", so `words[1]` and `words[-1]` never raise. */
  lemma NodeLineWords(line: string)
    requires Tagged(line, NodeLineTag)
    ensures |Words(line)| >= 2 && Words(line)[0] == "NUMA"
  {
    var u := line[5..];
    NodeLineShape(line);
    assert NoSpace("NUMA");
    WordsOfWord("NUMA", " " + u);
    WordsSkipSpace(" ", u);
    WordsOfNonSpaceStart(u);
  }

  /** A node line is "NUMA", a blank, and a text starting with 'n'. */
  lemma NodeLineShape(line: string)
    requires Tagged(line, NodeLineTag)
    ensures |line| >= 9 && line == "NUMA" + (" " + line[5..]) && line[5] == 'n'
  {
    assert line[..9] == NodeLineTag;
    assert line[..4] == "NUMA" && line[4] == ' ' && line[5] == 'n';
    assert line[4..] == " " + line[5..];
    assert line == line[..4] + line[4..];
  }

  /** `words[1][-1:]`: the last character of the line's second word. */
  function NodeLabel(line: string): (node: string)
    requires Tagged(line, NodeLineTag)
    ensures IsLabel(node)
  {
    NodeLineWords(line);
    var w := Words(line)[1];
    assert !IsSpace(w[|w| - 1]);
    LastChar(w)
  }

  /** `words[-1].split(',')`: the comma-separated CPU list of a node line. */
  function CpuTokens(line: string): seq<string>
    requires Tagged(line, NodeLineTag)
  {
    NodeLineWords(line);
    var ws := Words(line);
    Split(ws[|ws| - 1], ',')
  }

  lemma WordsOfNodeLine(d: string, rest: string)
    requires d != "" && NoSpace(d)
    requires rest == "" || IsSpace(rest[0])
    ensures Words(NodeLineTag + d + rest) == ["NUMA", "node" + d] + Words(rest)
  {
    var name := "node" + d;
    assert NoSpace(name) by {
      assert forall i :: 4 <= i < |name| ==> name[i] == d[i - 4];
    }
    var numa := "NUMA";
    assert NoSpace(numa);
    assert NodeLineTag + d + rest == numa + " " + name + rest;
    TwoWords(numa, name, rest);
  }

  /** For "NUMA node<d> ..." the label is the last character of d only, so
      node 10 is labelled "0", like node 0. */
  lemma NodeLabelIsLastCharOfName(d: string, rest: string)
    requires d != "" && NoSpace(d)
    requires rest == "" || IsSpace(rest[0])
    ensures Tagged(NodeLineTag + d + rest, NodeLineTag)
    ensures NodeLabel(NodeLineTag + d + rest) == [d[|d| - 1]]
  {
    var line := NodeLineTag + d + rest;
    assert line[..9] == NodeLineTag;
    WordsOfNodeLine(d, rest);
    var name := "node" + d;
    assert name[|name| - 1] == d[|d| - 1];
  }

  // ---------------------------------------------------------------------
  // Assigning the CPUs of one node line
  // ---------------------------------------------------------------------

  /** The decimal texts `str(i)` for a <= i <= b. */
  function RangeKeys(a: int, b: int): set<string> {
    set i | a <= i <= b :: IntToString(i)
  }

  lemma RangeKeysStep(a: int, b: int)
    requires a <= b
    ensures RangeKeys(a, b) == {IntToString(a)} + RangeKeys(a + 1, b)
  {
    forall k | k in RangeKeys(a, b) ensures k in {IntToString(a)} + RangeKeys(a + 1, b) {
      var i :| a <= i <= b && k == IntToString(i);
      if i > a {
        assert k in RangeKeys(a + 1, b);
      }
    }
  }

  lemma KeysToUnion(m: map<string, string>, k1: set<string>, k2: set<string>, node: string)
    ensures m + KeysTo(k1, node) + KeysTo(k2, node) == m + KeysTo(k1 + k2, node)
  {
  }

  /** `for i in range(a, b + 1): cpu_numa[str(i)] = words[1][-1:]`, with the label as `node`. */
  function AssignRange(m: map<string, string>, a: int, b: int, node: string): (r: map<string, string>)
    ensures r == m + KeysTo(RangeKeys(a, b), node)
    decreases if a <= b then b - a + 1 else 0
  {
    if a > b then
      EmptyRange(m, a, b, node);
      m
    else
      AssignFirst(m, a, b, node);
      AssignRange(m[IntToString(a) := node], a + 1, b, node)
  }

  lemma EmptyRange(m: map<string, string>, a: int, b: int, node: string)
    requires a > b
    ensures m + KeysTo(RangeKeys(a, b), node) == m
  {
    assert RangeKeys(a, b) == {};
    assert m + KeysTo({}, node) == m;
  }

  /** Assigning a, then a+1 to b, assigns a to b. */
  lemma AssignFirst(m: map<string, string>, a: int, b: int, node: string)
    requires a <= b
    ensures m[IntToString(a) := node] + KeysTo(RangeKeys(a + 1, b), node) == m + KeysTo(RangeKeys(a, b), node)
  {
    RangeKeysStep(a, b);
    AssignThenKeys(m, IntToString(a), RangeKeys(a + 1, b), RangeKeys(a, b), node);
  }

  lemma AssignThenKeys(m: map<string, string>, k: string, rest: set<string>, keys: set<string>, node: string)
    requires keys == {k} + rest
    ensures m[k := node] + KeysTo(rest, node) == m + KeysTo(keys, node)
  {
    assert m[k := node] == m + KeysTo({k}, node);
    KeysToUnion(m, {k}, rest, node);
  }

  /** The keys one token of the CPU list stands for: the token itself, or
      every `str(i)` in an `a-b` range; `None` when an end of the range is
      not an integer. Only the first two pieces around a '-' matter. */
  function TokenKeys(token: string): Option<set<string>> {
    if '-' in token then
      var w := Split(token, '-');
      match (ParseInt(w[0]), ParseInt(w[1]))
      case (Some(a), Some(b)) => Some(RangeKeys(a, b))
      case _ => None
    else Some({token})
  }

  /** Assigns the CPUs of one token, raising like `int()` on a bad range end. */
  function AssignToken(m: map<string, string>, token: string, node: string): (r: Result<map<string, string>, TopologyError>)
    ensures r.Ok? <==> TokenKeys(token).Some?
    ensures r.Ok? ==> r.value == m + KeysTo(TokenKeys(token).value, node)
  {
    if '-' in token then
      var w := Split(token, '-');
      match ParseInt(w[0])
      case None => Fail(BadRangeEnd(w[0]))
      case Some(a) =>
        match ParseInt(w[1])
        case None => Fail(BadRangeEnd(w[1]))
        case Some(b) => Ok(AssignRange(m, a, b, node))
    else
      assert KeysTo({token}, node) == map[token := node];
      Ok(m[token := node])
  }

  /** The keys a whole CPU list stands for, `None` when one token is bad. */
  function TokensKeys(tokens: seq<string>): Option<set<string>> {
    if |tokens| == 0 then Some({})
    else
      match (TokenKeys(tokens[0]), TokensKeys(tokens[1..]))
      case (Some(k0), Some(ks)) => Some(k0 + ks)
      case _ => None
  }

  /** The loop over the tokens of one CPU list, in order. */
  function AssignTokens(m: map<string, string>, tokens: seq<string>, node: string): (r: Result<map<string, string>, TopologyError>)
    ensures r.Ok? <==> TokensKeys(tokens).Some?
    ensures r.Ok? ==> r.value == m + KeysTo(TokensKeys(tokens).value, node)
    decreases |tokens|
  {
    if |tokens| == 0 then
      assert m + KeysTo({}, node) == m;
      Ok(m)
    else
      match AssignToken(m, tokens[0], node)
      case Fail(e) => Fail(e)
      case Ok(m1) =>
        var r := AssignTokens(m1, tokens[1..], node);
        if r.Ok? then
          var k0 := TokenKeys(tokens[0]).value;
          var ks := TokensKeys(tokens[1..]).value;
          KeysToUnion(m, k0, ks, node);
          r
        else r
  }

  /** What one "NUMA node" line does to the map. */
  function AssignNodeLine(m: map<string, string>, line: string): Result<map<string, string>, TopologyError>
    requires Tagged(line, NodeLineTag)
  {
    AssignTokens(m, CpuTokens(line), NodeLabel(line))
  }

  /** A node line maps every integer of each `a-b` token, as decimal text,
      and every other token verbatim, to the line's node, and leaves every
      other key as it was. It fails exactly when some range end is not an
      integer. */
  lemma NodeLineAssigns(m: map<string, string>, line: string)
    requires Tagged(line, NodeLineTag)
    ensures AssignNodeLine(m, line).Ok? <==> TokensKeys(CpuTokens(line)).Some?
    ensures AssignNodeLine(m, line).Ok? ==>
      var r := AssignNodeLine(m, line).value;
      var keys := TokensKeys(CpuTokens(line)).value;
      && (forall k :: k in keys ==> k in r && r[k] == NodeLabel(line))
      && (forall k :: k !in keys ==> (k in r <==> k in m) && (k in m ==> r[k] == m[k]))
  {
  }

  /** Inside one CPU list, a range token `a-b` with integer ends covers
      exactly the decimal texts of a..b, and any other token covers itself. */
  lemma TokenKeysOfRange(token: string, a: int, b: int)
    requires '-' in token
    requires ParseInt(Split(token, '-')[0]) == Some(a)
    requires ParseInt(Split(token, '-')[1]) == Some(b)
    ensures TokenKeys(token) == Some(RangeKeys(a, b))
    ensures forall i :: a <= i <= b ==> IntToString(i) in TokenKeys(token).value
  {
  }

  // ---------------------------------------------------------------------
  // The scan over all lines
  // ---------------------------------------------------------------------

  /** Which lines assign CPUs to a node: as the code is written, every line
      that starts with "NUMA node", the "NUMA node(s):" count line
      included; as evidently intended, only the "NUMA node<d> CPU(s):"
      lines. */
  datatype Reading = AsWritten | Intended

  predicate IsNodeLine(line: string, reading: Reading) {
    Tagged(line, NodeLineTag) && (reading.AsWritten? || !Tagged(line, NodeCountTag))
  }

  /** The local variables of `CPU_NUMA` while it reads the file. */
  datatype Scan = Scan(cpuNb: Option<int>, nodesNb: Option<int>, cpuNuma: map<string, string>)

  /** One turn of the `for line in lscpufile` loop; as written, the three
      tests are independent, so the "NUMA node(s):" line also counts as a
      node line. */
  function ScanLine(s: Scan, line: string, reading: Reading): Result<Scan, TopologyError> {
    var s1 :-
      if Tagged(line, CpuCountTag) then
        match ParseInt(Drop(line, |CpuCountTag|))
        case Some(n) => Ok(s.(cpuNb := Some(n)))
        case None => Fail(BadCount(line))
      else Ok(s);
    var s2 :-
      if Tagged(line, NodeCountTag) then
        match ParseInt(Drop(line, |NodeCountTag|))
        case Some(n) => Ok(s1.(nodesNb := Some(n)))
        case None => Fail(BadCount(line))
      else Ok(s1);
    if IsNodeLine(line, reading) then
      var m :- AssignNodeLine(s2.cpuNuma, line);
      Ok(s2.(cpuNuma := m))
    else Ok(s2)
  }

  /** One line changes the scan as its three tests say: here, a line that
      is only a CPU count. */
  lemma ScanCountOnly(s: Scan, line: string, n: int, reading: Reading)
    requires Tagged(line, CpuCountTag) && ParseInt(Drop(line, |CpuCountTag|)) == Some(n)
    requires !Tagged(line, NodeCountTag) && !Tagged(line, NodeLineTag)
    ensures ScanLine(s, line, reading) == Ok(s.(cpuNb := Some(n)))
  {
  }

  /** A "CPU(s):" line with an integer on it records that integer as the CPU
      count and changes nothing else. */
  lemma CpuCountLine(s: Scan, sp: string, n: int, post: string, reading: Reading)
    requires AllSpace(sp) && AllSpace(post)
    ensures ScanLine(s, CpuCountTag + sp + IntToString(n) + post, reading) == Ok(s.(cpuNb := Some(n)))
  {
    var rest := sp + IntToString(n) + post;
    var line := CpuCountTag + rest;
    assert line == CpuCountTag + sp + IntToString(n) + post;
    CpuCountLineTags(rest);
    ParseIntOfString(sp, n, post);
    ScanCountOnly(s, line, n, reading);
  }

  lemma CpuCountLineTags(rest: string)
    ensures var line := CpuCountTag + rest;
      && Tagged(line, CpuCountTag) && Drop(line, |CpuCountTag|) == rest
      && !Tagged(line, NodeCountTag) && !Tagged(line, NodeLineTag)
  {
    var line := CpuCountTag + rest;
    assert line[..7] == CpuCountTag;
    assert Take(line, |NodeCountTag|)[0] == 'C' && Take(line, |NodeLineTag|)[0] == 'C';
    assert NodeCountTag[0] == 'N' && NodeLineTag[0] == 'N';
  }

  /** ... and a line that is a node count, and so also a node line. */
  lemma ScanNodeCount(s: Scan, line: string, n: int, m: map<string, string>)
    requires !Tagged(line, CpuCountTag)
    requires Tagged(line, NodeCountTag) && ParseInt(Drop(line, |NodeCountTag|)) == Some(n)
    requires Tagged(line, NodeLineTag) && AssignNodeLine(s.cpuNuma, line) == Ok(m)
    ensures ScanLine(s, line, AsWritten) == Ok(s.(nodesNb := Some(n), cpuNuma := m))
    ensures ScanLine(s, line, Intended) == Ok(s.(nodesNb := Some(n)))
  {
  }

  /** How `split()` sees a "NUMA node(s):" line: its second word is
      "node(s):", so its label is ":", and its last word is the count. */
  lemma NodeCountLineWords(sp: string, w: string, post: string)
    requires sp != "" && AllSpace(sp) && AllSpace(post)
    requires w != "" && NoSpace(w)
    ensures Tagged(NodeCountTag + sp + w + post, NodeLineTag)
    ensures Words(NodeCountTag + sp + w + post) == ["NUMA", "node(s):", w]
    ensures NodeLabel(NodeCountTag + sp + w + post) == ":"
  {
    var name := "(s):";
    assert NoSpace(name) by {
      assert name[0] == '(' && name[1] == 's' && name[2] == ')' && name[3] == ':';
    }
    var rest := sp + w + post;
    assert IsSpace(rest[0]);
    assert NodeCountTag + sp + w + post == NodeLineTag + name + rest;
    WordsOfNodeLine(name, rest);
    NodeLabelIsLastCharOfName(name, rest);
    PaddedWord(sp, w, post);
    assert "node" + name == "node(s):";
    assert ["NUMA", "node(s):"] + [w] == ["NUMA", "node(s):", w];
  }

  /** A "NUMA node(s):" line records the node count and, as written,
      because it also starts with "NUMA node", maps the count's own decimal
      text, as a CPU id, to the label ":", the last character of "node(s):";
      as intended it leaves the map alone. */
  lemma NodeCountLine(s: Scan, sp: string, n: nat, post: string)
    requires sp != "" && AllSpace(sp) && AllSpace(post)
    ensures ScanLine(s, NodeCountTag + sp + IntToString(n) + post, AsWritten)
         == Ok(s.(nodesNb := Some(n), cpuNuma := s.cpuNuma[IntToString(n) := ":"]))
    ensures ScanLine(s, NodeCountTag + sp + IntToString(n) + post, Intended)
         == Ok(s.(nodesNb := Some(n)))
  {
    var digits := IntToString(n);
    var rest := sp + digits + post;
    var line := NodeCountTag + rest;
    assert line == NodeCountTag + sp + digits + post;
    NodeCountLineTags(rest);
    ParseIntOfString(sp, n, post);
    NodeCountAssigns(s.cpuNuma, sp, digits, post);
    ScanNodeCount(s, line, n, s.cpuNuma[digits := ":"]);
  }

  lemma NodeCountLineTags(rest: string)
    ensures var line := NodeCountTag + rest;
      && !Tagged(line, CpuCountTag)
      && Tagged(line, NodeCountTag) && Drop(line, |NodeCountTag|) == rest
      && Tagged(line, NodeLineTag)
  {
    var line := NodeCountTag + rest;
    assert line[..13] == NodeCountTag;
    assert line[..9] == NodeLineTag;
    assert Take(line, |CpuCountTag|)[0] == 'N' && CpuCountTag[0] == 'C';
  }

  /** The count on a "NUMA node(s):" line is its one CPU token. */
  lemma NodeCountAssigns(m: map<string, string>, sp: string, w: string, post: string)
    requires sp != "" && AllSpace(sp) && AllSpace(post)
    requires w != "" && AllDigits(w)
    ensures Tagged(NodeCountTag + sp + w + post, NodeLineTag)
    ensures AssignNodeLine(m, NodeCountTag + sp + w + post) == Ok(m[w := ":"])
  {
    var line := NodeCountTag + sp + w + post;
    assert NoSpace(w);
    NodeCountLineWords(sp, w, post);
    assert ',' !in w && '-' !in w;
    JoinSplit(w, ',');
    assert CpuTokens(line) == [w];
    assert TokenKeys(w) == Some({w});
    assert TokensKeys([w][1..]) == Some({});
    assert {w} + {} == {w};
    assert TokensKeys([w]) == Some({w});
    NodeLineAssigns(m, line);
    var r := AssignNodeLine(m, line).value;
    assert r == m[w := ":"];
  }

  /** ... and a line that only assigns CPUs to a node. */
  lemma ScanNodeLineOnly(s: Scan, line: string, m: map<string, string>, reading: Reading)
    requires !Tagged(line, CpuCountTag) && !Tagged(line, NodeCountTag)
    requires Tagged(line, NodeLineTag) && AssignNodeLine(s.cpuNuma, line) == Ok(m)
    ensures ScanLine(s, line, reading) == Ok(s.(cpuNuma := m))
  {
  }

  lemma NodeCpuLineTags(d: string, rest: string)
    requires d != "" && AllDigits(d)
    ensures var line := NodeLineTag + d + rest;
      && !Tagged(line, CpuCountTag) && !Tagged(line, NodeCountTag) && Tagged(line, NodeLineTag)
  {
    var line := NodeLineTag + d + rest;
    assert line[..9] == NodeLineTag;
    assert Take(line, |CpuCountTag|)[0] == 'N' && CpuCountTag[0] == 'C';
    assert Take(line, |NodeCountTag|)[9] == d[0] && NodeCountTag[9] == '(';
  }

  /** "NUMA node<d> CPU(s): <w>" with one CPU id w maps w to the last digit
      of d and changes nothing else. */
  lemma NodeCpuLineAssigns(m: map<string, string>, d: string, sp1: string, sp2: string, w: string, post: string)
    requires d != "" && AllDigits(d)
    requires sp1 != "" && AllSpace(sp1) && sp2 != "" && AllSpace(sp2) && AllSpace(post)
    requires w != "" && NoSpace(w) && ',' !in w && '-' !in w
    ensures Tagged(NodeLineTag + d + sp1 + CpuCountTag + sp2 + w + post, NodeLineTag)
    ensures AssignNodeLine(m, NodeLineTag + d + sp1 + CpuCountTag + sp2 + w + post) == Ok(m[w := [d[|d| - 1]]])
  {
    var line := NodeLineTag + d + sp1 + CpuCountTag + sp2 + w + post;
    NodeCpuLineWords(d, sp1, sp2, w, post);
    OneTokenAssigns(m, line, w);
  }

  /** The words of "NUMA node<d> CPU(s): <w>" and the node it names. */
  lemma NodeCpuLineWords(d: string, sp1: string, sp2: string, w: string, post: string)
    requires d != "" && AllDigits(d)
    requires sp1 != "" && AllSpace(sp1) && sp2 != "" && AllSpace(sp2) && AllSpace(post)
    requires w != "" && NoSpace(w)
    ensures var line := NodeLineTag + d + sp1 + CpuCountTag + sp2 + w + post;
      && Tagged(line, NodeLineTag)
      && Words(line) == ["NUMA", "node" + d, CpuCountTag, w]
      && NodeLabel(line) == [d[|d| - 1]]
  {
    var rest := sp1 + CpuCountTag + sp2 + w + post;
    assert NodeLineTag + d + rest == NodeLineTag + d + sp1 + CpuCountTag + sp2 + w + post;
    assert NoSpace(d) by {
      assert forall i :: 0 <= i < |d| ==> IsDigit(d[i]);
    }
    CpuListWords(sp1, sp2, w, post);
    assert IsSpace(rest[0]);
    WordsOfNodeLine(d, rest);
    NodeLabelIsLastCharOfName(d, rest);
  }

  /** The words after the node name: the title "CPU(s):" and the list. */
  lemma CpuListWords(sp1: string, sp2: string, w: string, post: string)
    requires sp1 != "" && AllSpace(sp1) && sp2 != "" && AllSpace(sp2) && AllSpace(post)
    requires w != "" && NoSpace(w)
    ensures Words(sp1 + CpuCountTag + sp2 + w + post) == [CpuCountTag, w]
  {
    var tail := sp2 + w + post;
    CpuCountTagIsWord();
    Assoc(sp1 + CpuCountTag, sp2, w);
    Assoc(sp1 + CpuCountTag, sp2 + w, post);
    Assoc(sp1, CpuCountTag, tail);
    assert IsSpace(tail[0]);
    WordsSkipSpace(sp1, CpuCountTag + tail);
    WordsOfWord(CpuCountTag, tail);
    PaddedWord(sp2, w, post);
  }

  lemma CpuCountTagIsWord()
    ensures CpuCountTag != "" && NoSpace(CpuCountTag)
  {
    var title := CpuCountTag;
    assert title[0] == 'C' && title[1] == 'P' && title[2] == 'U' && title[3] == '(';
    assert title[4] == 's' && title[5] == ')' && title[6] == ':';
  }

  /** A node line whose last word is one plain CPU id maps that id to the
      line's node. */
  lemma OneTokenAssigns(m: map<string, string>, line: string, w: string)
    requires Tagged(line, NodeLineTag) && |Words(line)| > 0 && Words(line)[|Words(line)| - 1] == w
    requires ',' !in w && '-' !in w
    ensures AssignNodeLine(m, line) == Ok(m[w := NodeLabel(line)])
  {
    JoinSplit(w, ',');
    assert CpuTokens(line) == [w];
    assert TokenKeys(w) == Some({w});
    assert TokensKeys([w][1..]) == Some({});
    assert {w} + {} == {w};
    assert TokensKeys([w]) == Some({w});
    NodeLineAssigns(m, line);
    var r := AssignNodeLine(m, line).value;
    assert r == m[w := NodeLabel(line)];
  }

  /** One turn of the scan over such a line, in either reading. */
  lemma NodeCpuLine(s: Scan, d: string, sp1: string, sp2: string, w: string, post: string, reading: Reading)
    requires d != "" && AllDigits(d)
    requires sp1 != "" && AllSpace(sp1) && sp2 != "" && AllSpace(sp2) && AllSpace(post)
    requires w != "" && NoSpace(w) && ',' !in w && '-' !in w
    ensures ScanLine(s, NodeLineTag + d + sp1 + CpuCountTag + sp2 + w + post, reading)
         == Ok(s.(cpuNuma := s.cpuNuma[w := [d[|d| - 1]]]))
  {
    var rest := sp1 + CpuCountTag + sp2 + w + post;
    var line := NodeLineTag + d + rest;
    assert line == NodeLineTag + d + sp1 + CpuCountTag + sp2 + w + post;
    NodeCpuLineTags(d, rest);
    NodeCpuLineAssigns(s.cpuNuma, d, sp1, sp2, w, post);
    ScanNodeLineOnly(s, line, s.cpuNuma[w := [d[|d| - 1]]], reading);
  }

  /** The loop over all lines, in file order; the first raising line ends it. */
  function ScanLines(lines: seq<string>, reading: Reading): (r: Result<Scan, TopologyError>)
    ensures r.Ok? ==> LabelsOnly(r.value.cpuNuma)
  {
    if |lines| == 0 then Ok(Scan(None, None, map[]))
    else
      match ScanLines(lines[..|lines| - 1], reading)
      case Fail(e) => Fail(e)
      case Ok(s) =>
        var r := ScanLine(s, lines[|lines| - 1], reading);
        if r.Ok? && IsNodeLine(lines[|lines| - 1], reading) then
          NodeLineLabels(s.cpuNuma, lines[|lines| - 1]);
          r
        else r
  }

  lemma NodeLineLabels(m: map<string, string>, line: string)
    requires Tagged(line, NodeLineTag) && LabelsOnly(m)
    ensures AssignNodeLine(m, line).Ok? ==> LabelsOnly(AssignNodeLine(m, line).value)
  {
  }

  /** `CPU_NUMA(lscpu)`: the scan, then the count check, then the return. */
  function CpuNuma(lines: seq<string>, reading: Reading): (r: Result<Topology, TopologyError>)
    ensures r.Ok? ==> |r.value.cpuNuma| == r.value.cpuNb
    ensures r.Ok? ==> LabelsOnly(r.value.cpuNuma)
  {
    var s :- ScanLines(lines, reading);
    if s.cpuNb.None? then Fail(NoCpuCount)
    else if |s.cpuNuma| != s.cpuNb.value then Fail(CountMismatch(|s.cpuNuma|, s.cpuNb.value))
    else if s.nodesNb.None? then Fail(NoNodeCount)
    else Ok(Topology(s.cpuNuma, s.cpuNb.value, s.nodesNb.value))
  }

  // ---------------------------------------------------------------------
  // The count line read as a node line
  // ---------------------------------------------------------------------

  /** The listing of a machine with one CPU on one node, in the order lscpu
      prints it. */
  const OneCpuListing: seq<string> := [
    CpuCountTag + " " + "1" + "\n",
    NodeCountTag + " " + "1" + "\n",
    NodeLineTag + "0" + " " + CpuCountTag + " " + "0" + "\n"
  ]

  /** `CPU_NUMA` returns exactly when the scan raised nothing, both counts
      were found, and the map has as many CPUs as the count declares. */
  lemma CpuNumaSucceeds(lines: seq<string>, reading: Reading)
    ensures CpuNuma(lines, reading).Ok? <==>
      && ScanLines(lines, reading).Ok?
      && ScanLines(lines, reading).value.cpuNb.Some?
      && ScanLines(lines, reading).value.nodesNb.Some?
      && |ScanLines(lines, reading).value.cpuNuma| == ScanLines(lines, reading).value.cpuNb.value
    ensures CpuNuma(lines, reading).Ok? ==>
      var s := ScanLines(lines, reading).value;
      CpuNuma(lines, reading).value == Topology(s.cpuNuma, s.cpuNb.value, s.nodesNb.value)
  {
  }

  /** The scan of a three-line listing, one line at a time. */
  lemma ScanThreeLines(l0: string, l1: string, l2: string, reading: Reading, s1: Scan, s2: Scan, s3: Scan)
    requires ScanLine(Scan(None, None, map[]), l0, reading) == Ok(s1)
    requires ScanLine(s1, l1, reading) == Ok(s2)
    requires ScanLine(s2, l2, reading) == Ok(s3)
    ensures ScanLines([l0, l1, l2], reading) == Ok(s3)
  {
    assert [l0][..0] == [];
    assert ScanLines([l0], reading) == Ok(s1);
    assert [l0, l1][..1] == [l0];
    assert ScanLines([l0, l1], reading) == Ok(s2);
    assert [l0, l1, l2][..2] == [l0, l1];
  }

  /** As written, the count line adds the id "1" for the node count, so
      the map has two entries for one CPU and the listing is rejected; as
      intended, CPU "0" on node "0" is all there is. */
  lemma OneCpuListingRead()
    ensures CpuNuma(OneCpuListing, AsWritten) == Fail(CountMismatch(2, 1))
    ensures CpuNuma(OneCpuListing, Intended) == Ok(Topology(map["0" := "0"], 1, 1))
  {
    assert IntToString(1) == "1" && IntToString(0) == "0";
    var l0, l1, l2 := OneCpuListing[0], OneCpuListing[1], OneCpuListing[2];
    assert OneCpuListing == [l0, l1, l2];
    var s0 := Scan(None, None, map[]);
    var s1 := s0.(cpuNb := Some(1));
    CpuCountLine(s0, " ", 1, "\n", AsWritten);
    CpuCountLine(s0, " ", 1, "\n", Intended);
    NodeCountLine(s1, " ", 1, "\n");
    var written := s1.(nodesNb := Some(1), cpuNuma := map["1" := ":"]);
    var intended := s1.(nodesNb := Some(1));
    assert "0"[|"0"| - 1] == '0';
    NodeCpuLine(written, "0", " ", " ", "0", "\n", AsWritten);
    NodeCpuLine(intended, "0", " ", " ", "0", "\n", Intended);
    ScanThreeLines(l0, l1, l2, AsWritten, s1, written, written.(cpuNuma := map["1" := ":", "0" := "0"]));
    ScanThreeLines(l0, l1, l2, Intended, s1, intended, intended.(cpuNuma := map["0" := "0"]));
    assert |map["1" := ":", "0" := "0"]| == 2;
  }
}
