/**
 * `KedroDiff`: the pipeline-level comparison of two pipeline.json snapshots.
 * Nodes are joined by name; a node present only in the target is new, one
 * present only in the base is dropped, and for the nodes present in both the
 * `inputs`, `outputs` and `tags` values are compared. Every property of the
 * source is computed afresh from the two fixed node lists, so the differ is a
 * value with member functions.
 */
module Diff {
  import opened Strings
  import opened Values
  import opened Pipeline
  import opened SampleData

  /** The node attributes that `change_attr` compares. */
  datatype Attr = Inputs | Outputs | Tags

  /** `node[attr]`. */
  function AttrOf(n: PipelineNode, a: Attr): Value {
    match a
    case Inputs => n.inputs
    case Outputs => n.outputs
    case Tags => n.tags
  }

  /** The node record with attribute `a` replaced by `v`. */
  function WithAttr(n: PipelineNode, a: Attr, v: Value): (r: PipelineNode)
    ensures r.name == n.name && AttrOf(r, a) == v
    ensures forall b :: b != a ==> AttrOf(r, b) == AttrOf(n, b)
  {
    match a
    case Inputs => n.(inputs := v)
    case Outputs => n.(outputs := v)
    case Tags => n.(tags := v)
  }

  /** The pipeline name used when none is given. */
  const DefaultName: string := "__default__"

  /**
   * `{str({node["name"]: node[attr]}) for node in pipe if node["name"] in keep}`.
   * The rendering `str({k: v})` determines `k` and `v`, so each entry is kept
   * as the pair itself.
   */
  function Entries(pipe: seq<PipelineNode>, a: Attr, keep: set<string>): set<(string, Value)> {
    set n | n in pipe && n.name in keep :: (n.name, AttrOf(n, a))
  }

  /** Arguments of `create_simple_sample`, as `from_sample` receives them. */
  datatype SampleArgs = SampleArgs(numNodes: int, kedroVersion: string, tagged: bool, namePrefix: string)

  /** `{"num_nodes": n}`: every other argument left at its default. */
  function NumNodesArgs(n: int): SampleArgs {
    SampleArgs(n, "0.17.2", true, "node")
  }

  function Sample(args: SampleArgs): Snapshot {
    CreateSimpleSample(args.numNodes, args.kedroVersion, args.tagged, args.namePrefix)
  }

  /** `KedroDiff(pipe1, pipe2, name)`: keeps the `pipeline` lists of both snapshots. */
  function FromSnapshots(snap1: Snapshot, snap2: Snapshot, name: string := DefaultName): (d: KedroDiff)
    ensures d.pipe1 == snap1.pipeline && d.pipe2 == snap2.pipeline && d.name == name
  {
    KedroDiff(snap1.pipeline, snap2.pipeline, name)
  }

  /** `KedroDiff.from_sample(pipe1_args, pipe2_args, name)`. */
  function FromSample(args1: SampleArgs, args2: SampleArgs, name: string := DefaultName): KedroDiff {
    FromSnapshots(Sample(args1), Sample(args2), name)
  }

  datatype KedroDiff = KedroDiff(pipe1: seq<PipelineNode>, pipe2: seq<PipelineNode>, name: string) {

    /** The same comparison with base and target exchanged. */
    function Swapped(): KedroDiff {
      KedroDiff(pipe2, pipe1, name)
    }

    /** `new_nodes`: names only the target has. */
    function NewNodes(): set<string> {
      Names(pipe2) - Names(pipe1)
    }

    /** `dropped_nodes`: names only the base has. */
    function DroppedNodes(): set<string> {
      Names(pipe1) - Names(pipe2)
    }

    /** `not_new_dropped_nodes`: the target's names less the new and the dropped ones. */
    function NotNewDroppedNodes(): (r: set<string>)
      ensures r == Names(pipe1) * Names(pipe2)
    {
      Names(pipe2) - NewNodes() - DroppedNodes()
    }

    /** `change_attr(attr)`: the target's entries for common nodes that the base lacks. */
    function ChangeAttr(a: Attr): (r: set<(string, Value)>)
      ensures forall p :: p in r ==> p.0 in Names(pipe1) && p.0 in Names(pipe2)
      ensures pipe1 == pipe2 ==> r == {}
    {
      Entries(pipe2, a, NotNewDroppedNodes()) - Entries(pipe1, a, NotNewDroppedNodes())
    }

    /** `change_input`, `change_output` and `change_tag`. */
    function ChangeInput(): set<(string, Value)> { ChangeAttr(Inputs) }
    function ChangeOutput(): set<(string, Value)> { ChangeAttr(Outputs) }
    function ChangeTag(): set<(string, Value)> { ChangeAttr(Tags) }

    /**
     * The reference meaning of `change_attr`: the common names whose node
     * carries a different `a` value in the two pipelines.
     */
    function ChangedNames(a: Attr): set<string> {
      set x | x in NotNewDroppedNodes() &&
        exists n1, n2 :: n1 in pipe1 && n2 in pipe2 && n1.name == x && n2.name == x && AttrOf(n1, a) != AttrOf(n2, a)
    }

    /** `num_changes`: zero exactly when nothing was added, dropped or changed. */
    function NumChanges(): (r: nat)
      ensures r == 0 <==> (NewNodes() == {} && DroppedNodes() == {}
                           && ChangeInput() == {} && ChangeOutput() == {} && ChangeTag() == {})
    {
      |NewNodes()| + |DroppedNodes()| + |ChangeInput()| + |ChangeOutput()| + |ChangeTag()|
    }

    /** `num_adds`: never negative, and together with `num_drops` it makes up `num_changes`. */
    function NumAdds(): (r: nat)
      ensures r + NumDrops() == NumChanges()
      ensures r == |NewNodes()| + |ChangeInput()| + |ChangeOutput()| + |ChangeTag()|
    {
      NumChanges() - |DroppedNodes()|
    }

    /** `num_drops`: part of `num_changes`. */
    function NumDrops(): (r: nat)
      ensures r <= NumChanges()
    {
      |DroppedNodes()|
    }

    /**
     * `_stat_msg`: the markup line that `stat` prints. Unless the name holds
     * marks, its plus signs count `num_adds` and its minus signs `num_drops`.
     */
    function StatMsg(): (r: string)
      ensures '+' !in name && '-' !in name ==> Count('+', r) == NumAdds() && Count('-', r) == NumDrops()
    {
      var line := StatLine(name, NumChanges(), NumAdds(), NumDrops());
      StatLineCounted(name, NumChanges(), NumAdds(), NumDrops(), line);
      line
    }
  }

  /** New and dropped names never overlap, and together with the common names they cover both pipelines. */
  lemma NewDroppedPartition(d: KedroDiff)
    ensures d.NewNodes() !! d.DroppedNodes()
    ensures d.NewNodes() !! d.NotNewDroppedNodes() && d.DroppedNodes() !! d.NotNewDroppedNodes()
    ensures Names(d.pipe2) == d.NewNodes() + d.NotNewDroppedNodes()
    ensures Names(d.pipe1) == d.DroppedNodes() + d.NotNewDroppedNodes()
  {
  }

  /** Exchanging the pipelines exchanges new and dropped nodes and keeps the common ones. */
  lemma SwapExchangesNewAndDropped(d: KedroDiff)
    ensures d.Swapped().NewNodes() == d.DroppedNodes()
    ensures d.Swapped().DroppedNodes() == d.NewNodes()
    ensures d.Swapped().NotNewDroppedNodes() == d.NotNewDroppedNodes()
  {
  }

  /** A set of pairs whose first components are all different has as many first components as pairs. */
  lemma {:induction false} FirstProjectionCard(s: set<(string, Value)>)
    requires forall p, q :: p in s && q in s && p.0 == q.0 ==> p == q
    ensures |set p | p in s :: p.0| == |s|
    decreases |s|
  {
    if s != {} {
      var p :| p in s;
      var rest := s - {p};
      FirstProjectionCard(rest);
      assert (set q | q in s :: q.0) == (set q | q in rest :: q.0) + {p.0};
      assert p.0 !in (set q | q in rest :: q.0);
    }
  }

  /** The first components of `change_attr`: the names of its entries. */
  function ChangeAttrNames(d: KedroDiff, a: Attr): set<string> {
    set p | p in d.ChangeAttr(a) :: p.0
  }

  /** With unique names, `change_attr` holds one entry per common node whose value differs. */
  lemma ChangeAttrCount(d: KedroDiff, a: Attr)
    requires UniqueNames(d.pipe1) && UniqueNames(d.pipe2)
    ensures |d.ChangeAttr(a)| == |d.ChangedNames(a)|
  {
    ChangeAttrOneEntryPerName(d, a);
    ChangedNamesHaveEntries(d, a);
    EntriesAreChangedNames(d, a);
    assert ChangeAttrNames(d, a) == d.ChangedNames(a);
    FirstProjectionCard(d.ChangeAttr(a));
  }

  /** A uniquely named target gives each name at most one entry of `change_attr`. */
  lemma ChangeAttrOneEntryPerName(d: KedroDiff, a: Attr)
    requires UniqueNames(d.pipe2)
    ensures forall p, q :: p in d.ChangeAttr(a) && q in d.ChangeAttr(a) && p.0 == q.0 ==> p == q
  {
    var s := d.ChangeAttr(a);
    var common := d.NotNewDroppedNodes();
    forall p, q | p in s && q in s && p.0 == q.0 ensures p == q {
      var n :| n in d.pipe2 && n.name in common && (n.name, AttrOf(n, a)) == p;
      var m :| m in d.pipe2 && m.name in common && (m.name, AttrOf(m, a)) == q;
      SameNameSameNode(d.pipe2, n, m);
    }
  }

  /** Every common node whose value differs has an entry in `change_attr`. */
  lemma ChangedNamesHaveEntries(d: KedroDiff, a: Attr)
    requires UniqueNames(d.pipe1)
    ensures d.ChangedNames(a) <= ChangeAttrNames(d, a)
  {
    forall x | x in d.ChangedNames(a) ensures x in ChangeAttrNames(d, a) {
      var n1, n2 :| n1 in d.pipe1 && n2 in d.pipe2 && n1.name == x && n2.name == x && AttrOf(n1, a) != AttrOf(n2, a);
      ChangedNodeHasEntry(d, a, n1, n2);
    }
  }

  lemma ChangedNodeHasEntry(d: KedroDiff, a: Attr, n1: PipelineNode, n2: PipelineNode)
    requires UniqueNames(d.pipe1)
    requires n1 in d.pipe1 && n2 in d.pipe2 && n1.name == n2.name && AttrOf(n1, a) != AttrOf(n2, a)
    ensures (n2.name, AttrOf(n2, a)) in d.ChangeAttr(a)
  {
    var common := d.NotNewDroppedNodes();
    var p := (n2.name, AttrOf(n2, a));
    assert n2.name in common;
    assert p in Entries(d.pipe2, a, common);
    forall m | m in d.pipe1 && m.name in common ensures (m.name, AttrOf(m, a)) != p {
      if m.name == n2.name {
        SameNameSameNode(d.pipe1, m, n1);
      }
    }
  }

  /** Every entry of `change_attr` names a common node whose value differs. */
  lemma EntriesAreChangedNames(d: KedroDiff, a: Attr)
    ensures ChangeAttrNames(d, a) <= d.ChangedNames(a)
  {
    forall x | x in ChangeAttrNames(d, a) ensures x in d.ChangedNames(a) {
      var p :| p in d.ChangeAttr(a) && p.0 == x;
      EntryIsChangedName(d, a, p);
    }
  }

  lemma EntryIsChangedName(d: KedroDiff, a: Attr, p: (string, Value))
    requires p in d.ChangeAttr(a)
    ensures p.0 in d.ChangedNames(a)
  {
    var common := d.NotNewDroppedNodes();
    assert p in Entries(d.pipe2, a, common) && p !in Entries(d.pipe1, a, common);
    var n2 :| n2 in d.pipe2 && n2.name in common && (n2.name, AttrOf(n2, a)) == p;
    assert p.0 in Names(d.pipe1);
    var n1 :| n1 in d.pipe1 && n1.name == p.0;
    assert (n1.name, AttrOf(n1, a)) in Entries(d.pipe1, a, common);
    assert AttrOf(n1, a) != AttrOf(n2, a);
  }

  /** With unique names, `num_changes` counts new, dropped and per-attribute changed nodes. */
  lemma NumChangesByNames(d: KedroDiff)
    requires UniqueNames(d.pipe1) && UniqueNames(d.pipe2)
    ensures d.NumChanges() == |d.NewNodes()| + |d.DroppedNodes()|
      + |d.ChangedNames(Inputs)| + |d.ChangedNames(Outputs)| + |d.ChangedNames(Tags)|
  {
    ChangeAttrCount(d, Inputs);
    ChangeAttrCount(d, Outputs);
    ChangeAttrCount(d, Tags);
  }

  /** With unique names, `num_changes` does not depend on which pipeline is the base. */
  lemma NumChangesSymmetric(d: KedroDiff)
    requires UniqueNames(d.pipe1) && UniqueNames(d.pipe2)
    ensures d.Swapped().NumChanges() == d.NumChanges()
    ensures d.Swapped().NumDrops() == |d.NewNodes()|
    ensures d.Swapped().NumAdds() == d.NumChanges() - |d.NewNodes()|
  {
    var e := d.Swapped();
    NumChangesByNames(d);
    NumChangesByNames(e);
    SwapExchangesNewAndDropped(d);
    ChangedNamesSwapped(d, Inputs);
    ChangedNamesSwapped(d, Outputs);
    ChangedNamesSwapped(d, Tags);
  }

  /** Which common nodes changed an attribute does not depend on the direction of the comparison. */
  lemma ChangedNamesSwapped(d: KedroDiff, a: Attr)
    ensures d.Swapped().ChangedNames(a) == d.ChangedNames(a)
  {
    var e := d.Swapped();
    forall x | x in d.ChangedNames(a) ensures x in e.ChangedNames(a) {
      var n1, n2 :| n1 in d.pipe1 && n2 in d.pipe2 && n1.name == x && n2.name == x && AttrOf(n1, a) != AttrOf(n2, a);
      assert n2 in e.pipe1 && n1 in e.pipe2;
    }
    forall x | x in e.ChangedNames(a) ensures x in d.ChangedNames(a) {
      var n1, n2 :| n1 in e.pipe1 && n2 in e.pipe2 && n1.name == x && n2.name == x && AttrOf(n1, a) != AttrOf(n2, a);
      assert n2 in d.pipe1 && n1 in d.pipe2;
    }
  }

  /** Comparing a pipeline with itself reports nothing. */
  lemma IdenticalNoChanges(pipe: seq<PipelineNode>, name: string)
    ensures KedroDiff(pipe, pipe, name).NumChanges() == 0
    ensures KedroDiff(pipe, pipe, name).NumAdds() == 0 && KedroDiff(pipe, pipe, name).NumDrops() == 0
  {
  }

  /** A target that extends the base with new uniquely named nodes only adds. */
  lemma PrefixPipelines(pipe1: seq<PipelineNode>, pipe2: seq<PipelineNode>, name: string)
    requires pipe1 <= pipe2 && UniqueNames(pipe2)
    ensures KedroDiff(pipe1, pipe2, name).NumChanges() == |pipe2| - |pipe1|
    ensures KedroDiff(pipe1, pipe2, name).NumAdds() == |pipe2| - |pipe1|
    ensures KedroDiff(pipe1, pipe2, name).NumDrops() == 0
    ensures |KedroDiff(pipe1, pipe2, name).NewNodes()| == |pipe2| - |pipe1|
  {
    var d := KedroDiff(pipe1, pipe2, name);
    PrefixNames(pipe1, pipe2);
    ExtendedNoChange(d, Inputs);
    ExtendedNoChange(d, Outputs);
    ExtendedNoChange(d, Tags);
    UniqueNamesCount(pipe1);
    UniqueNamesCount(pipe2);
    assert d.NewNodes() == Names(pipe2) - Names(pipe1);
  }

  /** A prefix of a pipeline keeps its nodes, and so its names and their uniqueness. */
  lemma PrefixNames(short: seq<PipelineNode>, long: seq<PipelineNode>)
    requires short <= long
    ensures forall n :: n in short ==> n in long
    ensures Names(short) <= Names(long)
    ensures UniqueNames(long) ==> UniqueNames(short)
  {
    forall n | n in short ensures n in long {
      var i :| 0 <= i < |short| && short[i] == n;
      assert long[i] == n;
    }
  }

  /** Extending a uniquely named base changes no attribute of the common nodes. */
  lemma ExtendedNoChange(d: KedroDiff, a: Attr)
    requires d.pipe1 <= d.pipe2 && UniqueNames(d.pipe2)
    ensures d.ChangeAttr(a) == {}
  {
    PrefixNames(d.pipe1, d.pipe2);
    var common := d.NotNewDroppedNodes();
    forall n | n in d.pipe2 && n.name in common ensures (n.name, AttrOf(n, a)) in Entries(d.pipe1, a, common) {
      var m :| m in d.pipe1 && m.name == n.name;
      SameNameSameNode(d.pipe2, m, n);
    }
  }

  /** Cutting the base short changes no attribute of the common nodes. */
  lemma CutNoChange(d: KedroDiff, a: Attr)
    requires d.pipe2 <= d.pipe1
    ensures d.ChangeAttr(a) == {}
  {
    PrefixNames(d.pipe2, d.pipe1);
  }

  /** Pipelines with no name in common: every target node is new and every base node dropped. */
  lemma DisjointPipelines(pipe1: seq<PipelineNode>, pipe2: seq<PipelineNode>, name: string)
    requires Names(pipe1) !! Names(pipe2) && UniqueNames(pipe1) && UniqueNames(pipe2)
    ensures KedroDiff(pipe1, pipe2, name).NumChanges() == |pipe1| + |pipe2|
    ensures KedroDiff(pipe1, pipe2, name).NumAdds() == |pipe2|
    ensures KedroDiff(pipe1, pipe2, name).NumDrops() == |pipe1|
  {
    var d := KedroDiff(pipe1, pipe2, name);
    assert d.NotNewDroppedNodes() == {};
    assert d.NewNodes() == Names(pipe2);
    assert d.DroppedNodes() == Names(pipe1);
    UniqueNamesCount(pipe1);
    UniqueNamesCount(pipe2);
  }

  /** Replacing an attribute of one node keeps every name in place. */
  lemma UpdateKeepsNames(pipe: seq<PipelineNode>, i: nat, a: Attr, v: Value)
    requires i < |pipe|
    ensures Names(pipe[i := WithAttr(pipe[i], a, v)]) == Names(pipe)
    ensures UniqueNames(pipe) ==> UniqueNames(pipe[i := WithAttr(pipe[i], a, v)])
  {
    var pipe2 := pipe[i := WithAttr(pipe[i], a, v)];
    forall n | n in pipe2 ensures n.name in Names(pipe) {
      var j :| 0 <= j < |pipe2| && pipe2[j] == n;
      assert pipe[j].name == n.name;
    }
    forall n | n in pipe ensures n.name in Names(pipe2) {
      var j :| 0 <= j < |pipe| && pipe[j] == n;
      assert pipe2[j].name == n.name;
    }
    if UniqueNames(pipe) {
      forall j, k | 0 <= j < k < |pipe2| ensures pipe2[j].name != pipe2[k].name {
        assert pipe2[j].name == pipe[j].name && pipe2[k].name == pipe[k].name;
      }
    }
  }

  /** Only the updated node, and only for the updated attribute, counts as changed. */
  lemma UpdateChangedNames(pipe: seq<PipelineNode>, i: nat, a: Attr, v: Value, name: string, b: Attr)
    requires UniqueNames(pipe) && i < |pipe| && AttrOf(pipe[i], a) != v
    ensures KedroDiff(pipe, pipe[i := WithAttr(pipe[i], a, v)], name).ChangedNames(b)
         == if b == a then {pipe[i].name} else {}
  {
    var pipe2 := pipe[i := WithAttr(pipe[i], a, v)];
    var d := KedroDiff(pipe, pipe2, name);
    UpdateKeepsNames(pipe, i, a, v);
    forall y | y in d.ChangedNames(b) ensures b == a && y == pipe[i].name {
      var n1, n2 :| n1 in pipe && n2 in pipe2 && n1.name == y && n2.name == y && AttrOf(n1, b) != AttrOf(n2, b);
      UpdatedNodeOnlyChange(pipe, i, a, v, b, n1, n2);
    }
    if b == a {
      assert pipe[i] in pipe && pipe2[i] in pipe2;
      assert pipe[i].name in d.ChangedNames(b);
    }
  }

  lemma UpdatedNodeOnlyChange(pipe: seq<PipelineNode>, i: nat, a: Attr, v: Value, b: Attr,
                              n1: PipelineNode, n2: PipelineNode)
    requires UniqueNames(pipe) && i < |pipe|
    requires n1 in pipe && n2 in pipe[i := WithAttr(pipe[i], a, v)] && n1.name == n2.name
    requires AttrOf(n1, b) != AttrOf(n2, b)
    ensures b == a && n1.name == pipe[i].name
  {
    var pipe2 := pipe[i := WithAttr(pipe[i], a, v)];
    var k :| 0 <= k < |pipe2| && pipe2[k] == n2;
    assert pipe[k] in pipe;
    assert pipe[k].name == n2.name;
    SameNameSameNode(pipe, n1, pipe[k]);
  }

  /**
   * Changing one attribute of one node of a uniquely named pipeline is one
   * change, reported as one addition and no drop.
   */
  lemma OneAttributeChanged(pipe: seq<PipelineNode>, i: nat, a: Attr, v: Value, name: string)
    requires UniqueNames(pipe) && i < |pipe| && AttrOf(pipe[i], a) != v
    ensures KedroDiff(pipe, pipe[i := WithAttr(pipe[i], a, v)], name).NumChanges() == 1
    ensures KedroDiff(pipe, pipe[i := WithAttr(pipe[i], a, v)], name).NumAdds() == 1
    ensures KedroDiff(pipe, pipe[i := WithAttr(pipe[i], a, v)], name).NumDrops() == 0
  {
    var pipe2 := pipe[i := WithAttr(pipe[i], a, v)];
    var d := KedroDiff(pipe, pipe2, name);
    UpdateKeepsNames(pipe, i, a, v);
    assert d.NewNodes() == {} && d.DroppedNodes() == {};
    NumChangesByNames(d);
    UpdateChangedNames(pipe, i, a, v, name, Inputs);
    UpdateChangedNames(pipe, i, a, v, name, Outputs);
    UpdateChangedNames(pipe, i, a, v, name, Tags);
  }

  /**
   * The layout of `_stat_msg`: the name cut or padded to 30 columns, the
   * change count, then `adds` plus signs in green and `drops` minus signs in red.
   */
  function StatLine(name: string, changes: nat, adds: nat, drops: nat): string {
    StatHead(name, changes) + Repeat('+', adds) + AddsToDrops() + Repeat('-', drops) + DropsEnd()
  }

  /** The markup between the plus and the minus signs. */
  function AddsToDrops(): string {
    "[/green][red]"
  }

  /** The markup after the minus signs. */
  function DropsEnd(): string {
    "[/red]"
  }

  /** Everything of the stat line before the plus signs. */
  function StatHead(name: string, changes: nat): string {
    "[red]M[/red] " + LJustCut(name, 30) + " | " + NatToString(changes) + " [green]"
  }

  /** The head of the stat line holds no `+` or `-` unless the name does. */
  lemma StatHeadUnmarked(name: string, changes: nat, c: char)
    requires c == '+' || c == '-'
    requires c !in name
    ensures c !in StatHead(name, changes)
  {
    var column := LJustCut(name, 30);
    forall k | 0 <= k < 30 ensures column[k] != c {
      if k < |name| {
        assert column[k] == name[k];
      }
    }
    var digits := NatToString(changes);
    forall k | 0 <= k < |digits| ensures digits[k] != c {
    }
  }

  /** With no `+` or `-` in the name, the stat line holds exactly `adds` `+` and `drops` `-`. */
  lemma StatLineMarks(name: string, changes: nat, adds: nat, drops: nat)
    requires '+' !in name && '-' !in name
    ensures Count('+', StatLine(name, changes, adds, drops)) == adds
    ensures Count('-', StatLine(name, changes, adds, drops)) == drops
  {
    StatHeadUnmarked(name, changes, '+');
    StatHeadUnmarked(name, changes, '-');
    StatLineTailsUnmarked();
    LayoutMarks(StatHead(name, changes), adds, AddsToDrops(), drops, DropsEnd());
  }

  /** The marks of a line laid out as a head, `adds` plus signs, markup, `drops` minus signs and markup. */
  lemma LayoutMarks(head: string, adds: nat, mid: string, drops: nat, end: string)
    requires '+' !in head && '-' !in head
    requires Count('+', mid) == 0 && Count('-', mid) == 0 && Count('+', end) == 0 && Count('-', end) == 0
    ensures Count('+', head + Repeat('+', adds) + mid + Repeat('-', drops) + end) == adds
    ensures Count('-', head + Repeat('+', adds) + mid + Repeat('-', drops) + end) == drops
  {
    var plus := Repeat('+', adds);
    var minus := Repeat('-', drops);
    CountRepeat('+', adds);
    CountRepeat('-', drops);
    CountAbsent('+', minus);
    CountAbsent('-', plus);
    CountAbsent('+', head);
    CountAbsent('-', head);
    CountFive('+', head, plus, mid, minus, end);
    CountFive('-', head, plus, mid, minus, end);
  }

  lemma StatLineTailsUnmarked()
    ensures Count('+', AddsToDrops()) == 0 && Count('-', AddsToDrops()) == 0
    ensures Count('+', DropsEnd()) == 0 && Count('-', DropsEnd()) == 0
  {
    Unmarked(AddsToDrops());
    Unmarked(DropsEnd());
  }

  lemma Unmarked(s: string)
    requires '+' !in s && '-' !in s
    ensures Count('+', s) == 0 && Count('-', s) == 0
  {
    CountAbsent('+', s);
    CountAbsent('-', s);
  }

  /** What the stat line visibly shows: the `M` marker, the change count, both runs of marks and a short name. */
  lemma StatLineShows(name: string, changes: nat, adds: nat, drops: nat)
    ensures Contains(StatLine(name, changes, adds, drops), "M")
    ensures OccursAt(StatLine(name, changes, adds, drops), NatToString(changes), 46)
    ensures Contains(StatLine(name, changes, adds, drops), Repeat('+', adds))
    ensures Contains(StatLine(name, changes, adds, drops), Repeat('-', drops))
    ensures |name| <= 30 ==> Contains(StatLine(name, changes, adds, drops), name)
  {
    var head := StatHead(name, changes);
    var plus := Repeat('+', adds);
    var minus := Repeat('-', drops);
    var tail := AddsToDrops() + minus + DropsEnd();
    assert StatLine(name, changes, adds, drops) == head + (plus + tail);
    StatMarksShown(head, plus, minus);
    StatHeadShows(name, changes, plus + tail);
  }

  lemma StatMarksShown(head: string, plus: string, minus: string)
    ensures Contains(head + plus + AddsToDrops() + minus + DropsEnd(), plus)
    ensures Contains(head + plus + AddsToDrops() + minus + DropsEnd(), minus)
  {
    var msg := head + plus + AddsToDrops() + minus + DropsEnd();
    assert msg == head + plus + (AddsToDrops() + minus + DropsEnd());
    ContainsMiddle(head, plus, AddsToDrops() + minus + DropsEnd());
    ContainsMiddle(head + plus + AddsToDrops(), minus, DropsEnd());
  }

  lemma StatHeadShows(name: string, changes: nat, rest: string)
    ensures Contains(StatHead(name, changes) + rest, "M")
    ensures OccursAt(StatHead(name, changes) + rest, NatToString(changes), 46)
    ensures |name| <= 30 ==> Contains(StatHead(name, changes) + rest, name)
  {
    var open := "[red]M[/red] ";
    assert |open| == 13 && open[5] == 'M';
    var column := LJustCut(name, 30);
    assert StatHead(name, changes) + rest == open + column + " | " + NatToString(changes) + " [green]" + rest;
    HeadLayoutShows(open, column, " | ", NatToString(changes), " [green]", rest);
    if |name| <= 30 {
      HeadLayoutShowsName(open, column, " | ", NatToString(changes), " [green]", rest, name);
    }
  }

  /**
   * A line laid out as `open + column + bar + digits + green + rest` shows
   * the `M` of `open` and the digits at column 46.
   */
  lemma HeadLayoutShows(open: string, column: string, bar: string, digits: string, green: string, rest: string)
    requires |open| == 13 && open[5] == 'M' && |column| == 30 && |bar| == 3
    ensures Contains(open + column + bar + digits + green + rest, "M")
    ensures OccursAt(open + column + bar + digits + green + rest, digits, 46)
  {
    var msg := open + column + bar + digits + green + rest;
    assert msg[5..6] == "M";
    assert OccursAt(msg, "M", 5);
    assert msg[46..46 + |digits|] == digits;
  }

  /** The same layout shows a name that starts the column. */
  lemma HeadLayoutShowsName(open: string, column: string, bar: string, digits: string, green: string, rest: string,
                            name: string)
    requires |name| <= |column| && column[..|name|] == name
    ensures Contains(open + column + bar + digits + green + rest, name)
  {
    var msg := open + column + bar + digits + green + rest;
    assert msg[|open|..|open| + |name|] == name;
    assert OccursAt(msg, name, |open|);
  }

  /** Count-based reading of `c * k in s` and `c * (k + 1) not in s`. */
  lemma MarksShown(s: string, c: char, k: nat)
    requires Count(c, s) == k
    ensures k > 0 ==> Contains(s, [c])
    ensures !Contains(s, Repeat(c, k + 1))
  {
    CountPositive(c, s);
    ContainsChar(s, c);
    if Contains(s, Repeat(c, k + 1)) {
      ContainsRunCount(s, c, k + 1);
    }
  }

  /**
   * How the stat line reads, given its three counts, when the pipeline name is
   * short and holds no marks: `M`, the name, the change count, and runs of
   * exactly `adds` plus and `drops` minus signs.
   */
  lemma StatLineReads(name: string, changes: nat, adds: nat, drops: nat)
    requires '+' !in name && '-' !in name && |name| <= 30
    ensures var msg := StatLine(name, changes, adds, drops);
      Contains(msg, "M") && Contains(msg, name) && OccursAt(msg, NatToString(changes), 46)
      && Contains(msg, Repeat('+', adds)) && !Contains(msg, Repeat('+', adds + 1))
      && Contains(msg, Repeat('-', drops)) && !Contains(msg, Repeat('-', drops + 1))
  {
    var msg := StatLine(name, changes, adds, drops);
    StatLineMarks(name, changes, adds, drops);
    StatLineShows(name, changes, adds, drops);
    MarksShown(msg, '+', adds);
    MarksShown(msg, '-', drops);
  }

  /** A sample against a longer sample built the same way: only additions. */
  lemma SampleGrowth(m: int, n: int, name: string)
    requires 0 <= m <= n
    ensures var d := FromSnapshots(CreateSimpleSample(m), CreateSimpleSample(n), name);
      d.NumChanges() == n - m && d.NumAdds() == n - m && d.NumDrops() == 0
  {
    SamplePrefix(m, n, "0.17.2", true, "node");
    SampleNamesUnique(n, "0.17.2", true, "node");
    PrefixPipelines(CreateSimpleSample(m).pipeline, CreateSimpleSample(n).pipeline, name);
  }

  /** A target that is the base cut short only drops. */
  lemma ShorterTarget(pipe1: seq<PipelineNode>, pipe2: seq<PipelineNode>, name: string)
    requires pipe2 <= pipe1 && UniqueNames(pipe1)
    ensures KedroDiff(pipe1, pipe2, name).NumChanges() == |pipe1| - |pipe2|
    ensures KedroDiff(pipe1, pipe2, name).NumAdds() == 0
    ensures KedroDiff(pipe1, pipe2, name).NumDrops() == |pipe1| - |pipe2|
  {
    var d := KedroDiff(pipe1, pipe2, name);
    PrefixNames(pipe2, pipe1);
    CutNoChange(d, Inputs);
    CutNoChange(d, Outputs);
    CutNoChange(d, Tags);
    UniqueNamesCount(pipe1);
    UniqueNamesCount(pipe2);
    assert d.DroppedNodes() == Names(pipe1) - Names(pipe2);
    assert d.NewNodes() == {};
  }

  /** A sample against a shorter sample built the same way: only drops. */
  lemma SampleShrink(m: int, n: int, name: string)
    requires 0 <= n <= m
    ensures var d := FromSnapshots(CreateSimpleSample(m), CreateSimpleSample(n), name);
      d.NumChanges() == m - n && d.NumAdds() == 0 && d.NumDrops() == m - n
  {
    SamplePrefix(n, m, "0.17.2", true, "node");
    SampleNamesUnique(m, "0.17.2", true, "node");
    ShorterTarget(CreateSimpleSample(m).pipeline, CreateSimpleSample(n).pipeline, name);
  }

  /** Two samples of `n` nodes whose name prefixes differ: every node replaced. */
  lemma SamplesRenamed(n: int, prefix1: string, prefix2: string, name: string)
    requires 0 <= n
    requires !(prefix1 <= prefix2) && !(prefix2 <= prefix1)
    ensures var d := FromSnapshots(CreateSimpleSample(n, namePrefix := prefix1),
                                   CreateSimpleSample(n, namePrefix := prefix2), name);
      d.NumChanges() == 2 * n && d.NumAdds() == n && d.NumDrops() == n
  {
    var snap1, snap2 := CreateSimpleSample(n, namePrefix := prefix1), CreateSimpleSample(n, namePrefix := prefix2);
    SampleNamesDisjoint(n, n, true, prefix1, prefix2);
    SampleNamesUnique(n, "0.17.2", true, prefix1);
    SampleNamesUnique(n, "0.17.2", true, prefix2);
    DisjointPipelines(snap1.pipeline, snap2.pipeline, name);
    assert FromSnapshots(snap1, snap2, name) == KedroDiff(snap1.pipeline, snap2.pipeline, name);
  }

  /** The stat line of one addition: `1` and a single `+`, no `-`. */
  lemma StatLineOneAdd(name: string)
    requires '+' !in name && '-' !in name && |name| <= 30
    ensures var msg := StatLine(name, 1, 1, 0);
      Contains(msg, "M") && Contains(msg, "1") && Contains(msg, name) && Contains(msg, "+")
      && !Contains(msg, "-") && !Contains(msg, "++")
  {
    StatLineReads(name, 1, 1, 0);
    assert NatToString(1) == "1";
    assert Repeat('+', 1) == "+" && Repeat('+', 2) == "++" && Repeat('-', 1) == "-";
  }

  /** The stat line of one drop: `1` and a single `-`, no `+`. */
  lemma StatLineOneDrop(name: string)
    requires '+' !in name && '-' !in name && |name| <= 30
    ensures var msg := StatLine(name, 1, 0, 1);
      Contains(msg, "M") && Contains(msg, "1") && Contains(msg, name) && Contains(msg, "-")
      && !Contains(msg, "+") && !Contains(msg, "--")
  {
    StatLineReads(name, 1, 0, 1);
    assert NatToString(1) == "1";
    assert Repeat('-', 1) == "-" && Repeat('-', 2) == "--" && Repeat('+', 1) == "+";
  }

  lemma StatMsgIsStatLine(d: KedroDiff)
    ensures d.StatMsg() == StatLine(d.name, d.NumChanges(), d.NumAdds(), d.NumDrops())
  {
  }

  /**
   * What `_stat_msg` shows for a pipeline name of at most 30 characters
   * without marks: `M`, the name, `num_changes` at column 46, and exactly
   * `num_adds` plus and `num_drops` minus signs, each in one unbroken run.
   */
  lemma StatMsgReads(d: KedroDiff)
    requires '+' !in d.name && '-' !in d.name && |d.name| <= 30
    ensures Contains(d.StatMsg(), "M") && Contains(d.StatMsg(), d.name)
    ensures OccursAt(d.StatMsg(), NatToString(d.NumChanges()), 46)
    ensures Count('+', d.StatMsg()) == d.NumAdds() && Count('-', d.StatMsg()) == d.NumDrops()
    ensures Contains(d.StatMsg(), Repeat('+', d.NumAdds())) && !Contains(d.StatMsg(), Repeat('+', d.NumAdds() + 1))
    ensures Contains(d.StatMsg(), Repeat('-', d.NumDrops())) && !Contains(d.StatMsg(), Repeat('-', d.NumDrops() + 1))
  {
    StatMsgCounts(d.name, d.NumChanges(), d.NumAdds(), d.NumDrops(), d.StatMsg());
  }

  /** `StatLineMarks` for a line already computed. */
  lemma StatLineCounted(name: string, changes: nat, adds: nat, drops: nat, line: string)
    requires line == StatLine(name, changes, adds, drops)
    ensures '+' !in name && '-' !in name ==> Count('+', line) == adds && Count('-', line) == drops
  {
    if '+' !in name && '-' !in name {
      StatLineMarks(name, changes, adds, drops);
    }
  }

  /** `StatLineReads` and `StatLineMarks` together, for a line already computed. */
  lemma StatMsgCounts(name: string, changes: nat, adds: nat, drops: nat, msg: string)
    requires '+' !in name && '-' !in name && |name| <= 30
    requires msg == StatLine(name, changes, adds, drops)
    ensures Contains(msg, "M") && Contains(msg, name) && OccursAt(msg, NatToString(changes), 46)
    ensures Count('+', msg) == adds && Count('-', msg) == drops
    ensures Contains(msg, Repeat('+', adds)) && !Contains(msg, Repeat('+', adds + 1))
    ensures Contains(msg, Repeat('-', drops)) && !Contains(msg, Repeat('-', drops + 1))
  {
    StatLineMarks(name, changes, adds, drops);
    StatLineReads(name, changes, adds, drops);
  }

  /** The stat line of a sample of one node against an empty one, either way round. */
  lemma OneNodeStatMsg(m: int, n: int, name: string)
    requires (m == 0 && n == 1) || (m == 1 && n == 0)
    ensures FromSnapshots(CreateSimpleSample(m), CreateSimpleSample(n), name).StatMsg() == StatLine(name, 1, n, m)
  {
    var d := FromSnapshots(CreateSimpleSample(m), CreateSimpleSample(n), name);
    if m == 0 {
      SampleGrowth(m, n, name);
    } else {
      SampleShrink(m, n, name);
    }
    assert d.name == name && d.NumChanges() == 1 && d.NumAdds() == n && d.NumDrops() == m;
    StatMsgIsStatLine(d);
  }

  /** Empty base, one-node target: `1`, one `+`, no `-`. */
  lemma StatOneNewNode(name: string)
    requires '+' !in name && '-' !in name && |name| <= 30
    ensures var msg := FromSnapshots(CreateSimpleSample(0), CreateSimpleSample(1), name).StatMsg();
      Contains(msg, "M") && Contains(msg, "1") && Contains(msg, name) && Contains(msg, "+")
      && !Contains(msg, "-") && !Contains(msg, "++")
  {
    OneNodeStatMsg(0, 1, name);
    StatLineOneAdd(name);
  }

  /** One-node base, empty target: `1`, one `-`, no `+`. */
  lemma StatOneDroppedNode(name: string)
    requires '+' !in name && '-' !in name && |name| <= 30
    ensures var msg := FromSnapshots(CreateSimpleSample(1), CreateSimpleSample(0), name).StatMsg();
      Contains(msg, "M") && Contains(msg, "1") && Contains(msg, name) && Contains(msg, "-")
      && !Contains(msg, "+") && !Contains(msg, "--")
  {
    OneNodeStatMsg(1, 0, name);
    StatLineOneDrop(name);
  }

  /**
   * `n` nodes against `n` nodes under another name prefix (the test uses ten,
   * `first` against `second`): `2 * n` changes, runs of exactly `n` plus and
   * `n` minus signs.
   */
  lemma StatRenamed(n: int, prefix1: string, prefix2: string, name: string)
    requires 0 <= n
    requires !(prefix1 <= prefix2) && !(prefix2 <= prefix1)
    requires '+' !in name && '-' !in name && |name| <= 30
    ensures var msg := FromSnapshots(CreateSimpleSample(n, namePrefix := prefix1),
                                     CreateSimpleSample(n, namePrefix := prefix2), name).StatMsg();
      Contains(msg, "M") && Contains(msg, NatToString(2 * n)) && Contains(msg, name)
      && Contains(msg, Repeat('+', n)) && Contains(msg, Repeat('-', n))
      && !Contains(msg, Repeat('+', n + 1)) && !Contains(msg, Repeat('-', n + 1))
  {
    SamplesRenamed(n, prefix1, prefix2, name);
    assert FromSnapshots(CreateSimpleSample(n, namePrefix := prefix1),
                         CreateSimpleSample(n, namePrefix := prefix2), name).StatMsg() == StatLine(name, 2 * n, n, n);
    StatLineReads(name, 2 * n, n, n);
  }

  /** The default pipeline name is short and holds no marks. */
  lemma DefaultNameUnmarked()
    ensures '+' !in DefaultName && '-' !in DefaultName && |DefaultName| <= 30
  {
  }

  /** `"__default__".ljust(30)[:30]`. */
  lemma DefaultColumn()
    ensures LJustCut(DefaultName, 30) == "__default__                   "
  {
    var r := LJustCut(DefaultName, 30);
    forall k | 0 <= k < 30 ensures r[k] == "__default__                   "[k] {
      if k < 11 {
        assert r[k] == DefaultName[k];
      }
    }
  }

  /** The head of the stat line for two changes of the default pipeline. */
  lemma StatHeadTwo()
    ensures StatHead(DefaultName, 2) == "[red]M[/red] __default__                    | 2 [green]"
  {
    DefaultColumn();
    assert NatToString(2) == "2";
    StatHeadTwoPieces("[red]M[/red] " + "__default__                   " + " | " + "2" + " [green]");
  }

  lemma StatHeadTwoPieces(built: string)
    requires built == "[red]M[/red] " + "__default__                   " + " | " + "2" + " [green]"
    ensures built == "[red]M[/red] __default__                    | 2 [green]"
  {
    var head := "[red]M[/red] __default__                    | 2 [green]";
    assert |built| == |head|;
    StatHeadTwoFront(built);
    StatHeadTwoBack(built);
  }

  lemma StatHeadTwoFront(built: string)
    requires built == "[red]M[/red] " + "__default__                   " + " | " + "2" + " [green]"
    ensures forall k :: 0 <= k < 28 ==> built[k] == "[red]M[/red] __default__                    | 2 [green]"[k]
  {
  }

  lemma StatHeadTwoBack(built: string)
    requires built == "[red]M[/red] " + "__default__                   " + " | " + "2" + " [green]"
    ensures forall k :: 28 <= k < |built| ==> built[k] == "[red]M[/red] __default__                    | 2 [green]"[k]
  {
  }

  /** The stat line of two additions, character for character. */
  lemma StatLineTwoAdds()
    ensures StatLine(DefaultName, 2, 2, 0)
         == "[red]M[/red] __default__                    | 2 [green]" + "++[/green][red][/red]"
  {
    StatHeadTwo();
    var plus, minus := Repeat('+', 2), Repeat('-', 0);
    AppendAssociative(StatHead(DefaultName, 2), plus, AddsToDrops());
    AppendAssociative(StatHead(DefaultName, 2), plus + AddsToDrops(), minus);
    AppendAssociative(StatHead(DefaultName, 2), plus + AddsToDrops() + minus, DropsEnd());
    StatTailTwoAdds();
  }

  lemma StatTailTwoAdds()
    ensures Repeat('+', 2) + AddsToDrops() + Repeat('-', 0) + DropsEnd() == "++[/green][red][/red]"
  {
    assert Repeat('+', 2) == "++" && Repeat('-', 0) == "";
    assert "++" + "[/green][red]" + "" + "[/red]" == "++[/green][red][/red]";
  }

  /** The marks of a stat line with two additions. */
  lemma StatLineTwoAddsMarks()
    ensures var msg := StatLine(DefaultName, 2, 2, 0);
      Contains(msg, DefaultName) && Contains(msg, "++") && !Contains(msg, "+++") && !Contains(msg, "-")
  {
    DefaultNameUnmarked();
    StatLineReads(DefaultName, 2, 2, 0);
    assert Repeat('+', 2) == "++" && Repeat('+', 3) == "+++" && Repeat('-', 1) == "-";
  }

  /**
   * `KedroDiff.from_sample({"num_nodes": 2}, {"num_nodes": 4})`: the doc-tested
   * stat line, and the name, `++`, no `+++` and no `-` that its test looks for.
   */
  lemma FromSampleDocTest()
    ensures FromSample(NumNodesArgs(2), NumNodesArgs(4)).StatMsg()
         == "[red]M[/red] __default__                    | 2 [green]" + "++[/green][red][/red]"
    ensures var msg := FromSample(NumNodesArgs(2), NumNodesArgs(4)).StatMsg();
      Contains(msg, DefaultName) && Contains(msg, "++") && !Contains(msg, "+++") && !Contains(msg, "-")
  {
    SampleGrowth(2, 4, DefaultName);
    assert FromSample(NumNodesArgs(2), NumNodesArgs(4)) == FromSnapshots(CreateSimpleSample(2), CreateSimpleSample(4), DefaultName);
    assert FromSample(NumNodesArgs(2), NumNodesArgs(4)).StatMsg() == StatLine(DefaultName, 2, 2, 0);
    StatLineTwoAdds();
    StatLineTwoAddsMarks();
  }

  /** The input, output or tag that the examples put on the third node of ten. */
  function ReplacementValue(a: Attr): Value {
    match a
    case Inputs => Str("input1")
    case Outputs => StrList(["output1"])
    case Tags => StrList(["tag1"])
  }

  /** The third node of a sample carries none of the replacement values. */
  lemma ThirdNodeDiffers(n: int, a: Attr)
    requires n >= 3
    ensures AttrOf(CreateSimpleSample(n).pipeline[2], a) != ReplacementValue(a)
  {
    var node := CreateSimpleSample(n).pipeline[2];
    SampleInputs(n, "0.17.2", true, "node");
    assert NatToString(3) == "3";
    assert "output" + NatToString(3) == "output3" && "tag" + NatToString(3) == "tag3";
    match a
    case Inputs =>
    case Outputs =>
      assert node.outputs == StrList(["output3"]);
      assert "output3"[6] != "output1"[6];
    case Tags =>
      assert node.tags == StrList(["tag3"]);
      assert "tag3"[3] != "tag1"[3];
  }

  /**
   * A sample of at least three nodes (the examples use ten) with one input,
   * output or tag of the third node replaced: one change, shown as `1` with a
   * single `+` and no `-`.
   */
  lemma StatOneAttributeChange(n: int, a: Attr)
    requires n >= 3
    ensures var pipe := CreateSimpleSample(n).pipeline;
      var msg := KedroDiff(pipe, pipe[2 := WithAttr(pipe[2], a, ReplacementValue(a))], DefaultName).StatMsg();
      Contains(msg, "1") && Contains(msg, "+") && !Contains(msg, "++") && !Contains(msg, "-")
  {
    var pipe := CreateSimpleSample(n).pipeline;
    var v := ReplacementValue(a);
    SampleNamesUnique(n, "0.17.2", true, "node");
    ThirdNodeDiffers(n, a);
    OneAttributeChanged(pipe, 2, a, v, DefaultName);
    var msg := KedroDiff(pipe, pipe[2 := WithAttr(pipe[2], a, v)], DefaultName).StatMsg();
    assert msg == StatLine(DefaultName, 1, 1, 0);
    DefaultNameUnmarked();
    StatLineOneAdd(DefaultName);
    assert Contains(msg, "1") && Contains(msg, "+") && !Contains(msg, "++") && !Contains(msg, "-");
  }
}
