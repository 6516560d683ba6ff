/**
 * `create_simple_sample`: the chained n-node pipelines from which every diff
 * scenario of kedro-diff's tests and examples is built.
 */
module SampleData {
  import opened Strings
  import opened Values
  import opened Pipeline

  /** The n-th node (counting from 1) of a simple sample. */
  function SampleNode(n: nat, tagged: bool, namePrefix: string): PipelineNode
    requires n >= 1
  {
    PipelineNode(
      namePrefix + NatToString(n),
      StrList(["output" + NatToString(n - 1)]),
      StrList(["output" + NatToString(n)]),
      StrList([if tagged then "tag" + NatToString(n) else ""]))
  }

  /**
   * `create_simple_sample(num_nodes, kedro_version, tagged, name_prefix)`.
   * `range(1, num_nodes + 1)` is empty when `num_nodes <= 0`.
   */
  function CreateSimpleSample(numNodes: int := 1, kedroVersion: string := "0.17.2",
                              tagged: bool := true, namePrefix: string := "node"): (r: Snapshot)
    ensures r.kedroVersion == kedroVersion
    ensures |r.pipeline| == if numNodes <= 0 then 0 else numNodes
    ensures forall i :: 0 <= i < |r.pipeline| ==>
      r.pipeline[i].name == namePrefix + NatToString(i + 1) &&
      r.pipeline[i].outputs == StrList(["output" + NatToString(i + 1)])
    ensures forall i :: 0 <= i < |r.pipeline| ==>
      r.pipeline[i].tags == StrList([if tagged then "tag" + NatToString(i + 1) else ""])
  {
    var count := if numNodes <= 0 then 0 else numNodes;
    Snapshot(kedroVersion, seq(count, i requires 0 <= i < count => SampleNode(i + 1, tagged, namePrefix)))
  }

  /**
   * The nodes of a sample form a chain: the first reads `output0` and each
   * later node reads what the one before it writes.
   */
  lemma SampleChained(numNodes: int, kedroVersion: string, tagged: bool, namePrefix: string)
    ensures var p := CreateSimpleSample(numNodes, kedroVersion, tagged, namePrefix).pipeline;
      (|p| > 0 ==> p[0].inputs == StrList(["output0"])) &&
      forall i, j :: 0 <= j < |p| && i == j + 1 && i < |p| ==> p[i].inputs == p[j].outputs
  {
    SampleInputs(numNodes, kedroVersion, tagged, namePrefix);
    assert "output" + NatToString(0) == "output0";
  }

  /** Node `i` (from 0) of a sample reads `output<i>`. */
  lemma SampleInputs(numNodes: int, kedroVersion: string, tagged: bool, namePrefix: string)
    ensures var p := CreateSimpleSample(numNodes, kedroVersion, tagged, namePrefix).pipeline;
      forall i :: 0 <= i < |p| ==> p[i].inputs == StrList(["output" + NatToString(i)])
  {
  }

  /** Node names of a sample are pairwise distinct. */
  lemma SampleNamesUnique(numNodes: int, kedroVersion: string, tagged: bool, namePrefix: string)
    ensures UniqueNames(CreateSimpleSample(numNodes, kedroVersion, tagged, namePrefix).pipeline)
  {
    var p := CreateSimpleSample(numNodes, kedroVersion, tagged, namePrefix).pipeline;
    forall i, j | 0 <= i < j < |p| ensures p[i].name != p[j].name {
      if p[i].name == p[j].name {
        var a, b := NatToString(i + 1), NatToString(j + 1);
        assert namePrefix + a == namePrefix + b;
        assert a == (namePrefix + a)[|namePrefix|..];
        assert b == (namePrefix + b)[|namePrefix|..];
        NatToStringInjective(i + 1, j + 1);
      }
    }
  }

  /** A smaller sample is the start of a larger one built with the same arguments. */
  lemma SamplePrefix(m: int, n: int, kedroVersion: string, tagged: bool, namePrefix: string)
    requires m <= n
    ensures CreateSimpleSample(m, kedroVersion, tagged, namePrefix).pipeline
         <= CreateSimpleSample(n, kedroVersion, tagged, namePrefix).pipeline
  {
    var p := CreateSimpleSample(m, kedroVersion, tagged, namePrefix).pipeline;
    var q := CreateSimpleSample(n, kedroVersion, tagged, namePrefix).pipeline;
    assert p == q[..|p|];
  }

  /**
   * Samples whose name prefixes are not prefixes of one another share no node
   * name (`first1..first10` against `second1..second10`).
   */
  lemma SampleNamesDisjoint(m: int, n: int, tagged: bool, prefix1: string, prefix2: string)
    requires !(prefix1 <= prefix2) && !(prefix2 <= prefix1)
    ensures Names(CreateSimpleSample(m, "0.17.2", tagged, prefix1).pipeline)
         !! Names(CreateSimpleSample(n, "0.17.2", tagged, prefix2).pipeline)
  {
    var p := CreateSimpleSample(m, "0.17.2", tagged, prefix1).pipeline;
    var q := CreateSimpleSample(n, "0.17.2", tagged, prefix2).pipeline;
    forall a, b | a in p && b in q ensures a.name != b.name {
      var i :| 0 <= i < |p| && p[i] == a;
      var j :| 0 <= j < |q| && q[j] == b;
      PrefixedNamesDiffer(prefix1, prefix2, NatToString(i + 1), NatToString(j + 1));
    }
  }

  lemma PrefixedNamesDiffer(prefix1: string, prefix2: string, d1: string, d2: string)
    requires !(prefix1 <= prefix2) && !(prefix2 <= prefix1)
    ensures prefix1 + d1 != prefix2 + d2
  {
    ConcatPrefixes(prefix1, d1, prefix2, d2);
  }

  /** Of two ways to split one string, the shorter first part is a prefix of the longer. */
  lemma ConcatPrefixes(a: string, b: string, c: string, d: string)
    ensures a + b == c + d ==> a <= c || c <= a
  {
    if a + b == c + d {
      if |a| <= |c| {
        assert a == (c + d)[..|a|] == c[..|a|];
      } else {
        assert c == (a + b)[..|c|] == a[..|c|];
      }
    }
  }

  /** The three doc-tested calls of `create_simple_sample`. */
  lemma SampleDocTests()
    ensures CreateSimpleSample(1) == Snapshot("0.17.2", [PipelineNode("node1",
      StrList(["output0"]), StrList(["output1"]), StrList(["tag1"]))])
    ensures CreateSimpleSample(1, namePrefix := "first") == Snapshot("0.17.2", [PipelineNode("first1",
      StrList(["output0"]), StrList(["output1"]), StrList(["tag1"]))])
    ensures CreateSimpleSample(1, tagged := false) == Snapshot("0.17.2", [PipelineNode("node1",
      StrList(["output0"]), StrList(["output1"]), StrList([""]))])
  {
    assert "output" + NatToString(0) == "output0";
    assert "output" + NatToString(1) == "output1";
    assert "tag" + NatToString(1) == "tag1";
    assert "node" + NatToString(1) == "node1";
    assert "first" + NatToString(1) == "first1";
    assert CreateSimpleSample(1).pipeline == [SampleNode(1, true, "node")];
    assert CreateSimpleSample(1, namePrefix := "first").pipeline == [SampleNode(1, true, "first")];
    assert CreateSimpleSample(1, tagged := false).pipeline == [SampleNode(1, false, "node")];
  }

  /** `create_simple_sample(0)`, the stand-in for a missing snapshot, has no nodes. */
  lemma EmptySample(kedroVersion: string, tagged: bool, namePrefix: string)
    ensures CreateSimpleSample(0, kedroVersion, tagged, namePrefix).pipeline == []
  {
  }
}
