/**
 * The pipeline.json document that `kedro get-json` writes and KedroDiff
 * compares: a kedro version and a list of node records.
 */
module Pipeline {
  import opened Values

  /** One entry of the `pipeline` list: `name`, `inputs`, `outputs` and `tags`. */
  datatype PipelineNode = PipelineNode(name: string, inputs: Value, outputs: Value, tags: Value)

  /** The whole document: `{"kedro_version": ..., "pipeline": [...]}`. */
  datatype Snapshot = Snapshot(kedroVersion: string, pipeline: seq<PipelineNode>)

  /** `set([node["name"] for node in pipe])`. */
  function Names(pipe: seq<PipelineNode>): set<string> {
    set n | n in pipe :: n.name
  }

  /** No two nodes of one pipeline share a name. */
  predicate UniqueNames(pipe: seq<PipelineNode>) {
    forall i, j :: 0 <= i < j < |pipe| ==> pipe[i].name != pipe[j].name
  }

  lemma NamesCons(pipe: seq<PipelineNode>)
    requires pipe != []
    ensures Names(pipe) == {pipe[0].name} + Names(pipe[1..])
  {
    forall x | x in Names(pipe) ensures x in {pipe[0].name} + Names(pipe[1..]) {
      var n :| n in pipe && n.name == x;
      if n != pipe[0] {
        assert n in pipe[1..];
      }
    }
  }

  /** With unique names there are as many names as nodes. */
  lemma {:induction false} UniqueNamesCount(pipe: seq<PipelineNode>)
    requires UniqueNames(pipe)
    ensures |Names(pipe)| == |pipe|
    decreases |pipe|
  {
    if pipe != [] {
      NamesCons(pipe);
      UniqueNamesCount(pipe[1..]);
    }
  }

  /** With unique names, a name picks out exactly one node. */
  lemma SameNameSameNode(pipe: seq<PipelineNode>, n: PipelineNode, m: PipelineNode)
    requires UniqueNames(pipe) && n in pipe && m in pipe && n.name == m.name
    ensures n == m
  {
    var i :| 0 <= i < |pipe| && pipe[i] == n;
    var j :| 0 <= j < |pipe| && pipe[j] == m;
    assert !(i < j) && !(j < i);
  }
}
