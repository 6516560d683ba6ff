/**
 * `NodeDiff` (kedro_diff/node_diff/node_diff.py): compares two versions of one
 * node record, either of which may be missing, and prints a header line for
 * the node followed by one line per attribute whose value changed.
 *
 * The rich `Console` is modelled as the sequence of strings handed to
 * `console.print`, markup included.
 */
module NodeDiff {
  import opened Wrappers
  import opened Strings
  import opened Values

  /** Which branch of `diff` a pair of nodes takes, in the order `diff` tests them. */
  datatype Status = BothAbsent | Unchanged | Added | Removed | Modified

  /** One side of `get_attr` before the callable check: `None` for a missing node or key. */
  function Side(node: Option<Dict>, attr: string): Value {
    match node
    case None => Null
    case Some(d) => if attr in d.entries then d.entries[attr] else Null
  }

  /** `"" if v is None else v`, as `diff_attr` does to both values before comparing them. */
  function Blank(v: Value): Value {
    if v.Null? then Str("") else v
  }

  class NodeDiff {
    const node1: Option<Dict>
    const node2: Option<Dict>
    const name: Option<string>
    /** 0 silent, 1 (default) only differing nodes, 2 every node. */
    const verboseLevel: int
    /** Everything handed to `console.print` so far, one entry per call. */
    var console: seq<string>

    constructor(node1: Option<Dict> := None, node2: Option<Dict> := None,
                name: Option<string> := None, verboseLevel: int := 1)
      ensures this.node1 == node1 && this.node2 == node2
      ensures this.name == name && this.verboseLevel == verboseLevel
      ensures console == []
    {
      this.node1 := node1;
      this.node2 := node2;
      this.name := name;
      this.verboseLevel := verboseLevel;
      console := [];
    }

    /**
     * `node1 != node2`: one node is missing and the other is not, or some key
     * lookup gives different answers, whatever the order the keys were inserted in.
     */
    predicate IsChanged() {
      !SameNode(node1, node2)
    }

    /** `node1 is node2 is None`: both nodes are missing, which never counts as a change. */
    predicate IsNone()
      ensures IsNone() ==> !IsChanged()
    {
      node1.None? && node2.None?
    }

    /** `node1 is None`: the target side alone is present, or neither side is. */
    predicate IsNew()
      ensures IsNew() && node2.Some? ==> IsChanged()
    {
      node1.None?
    }

    /** `node2 is None`: the base side alone is present, or neither side is. */
    predicate IsDeleted()
      ensures IsDeleted() && node1.Some? ==> IsChanged()
    {
      node2.None?
    }

    /** The branch `diff` takes: each branch is characterised by which nodes are present. */
    function Status(): (s: Status)
      ensures s == BothAbsent <==> node1.None? && node2.None?
      ensures s == Added <==> node1.None? && node2.Some?
      ensures s == Removed <==> node1.Some? && node2.None?
      ensures s == Unchanged <==> node1.Some? && node2.Some? && !IsChanged()
      ensures s == Modified <==> node1.Some? && node2.Some? && IsChanged()
    {
      if IsNone() then BothAbsent
      else if !IsChanged() then Unchanged
      else if IsNew() then Added
      else if IsDeleted() then Removed
      else Modified
    }

    /**
     * `attrs`: the visible keys of the new node, or of the old one when the
     * node was deleted; keys only the old node has are never compared.
     */
    function Attrs(): (r: seq<string>)
      ensures node2.Some? ==> forall a :: a in r <==> a in node2.value.keys && !Hidden(a)
      ensures node2.None? && node1.Some? ==> forall a :: a in r <==> a in node1.value.keys && !Hidden(a)
      ensures node1.None? && node2.None? ==> r == []
      ensures node2.Some? && Distinct(node2.value.keys) ==> Distinct(r)
      ensures node2.Some? ==> r == VisibleKeys(node2.value.keys)
      ensures node2.None? && node1.Some? ==> r == VisibleKeys(node1.value.keys)
    {
      var node := if IsDeleted() then node1 else node2;
      match node
      case None => []
      case Some(d) => VisibleKeys(d.keys)
    }

    /**
     * `get_attr(attr)`: the attribute on both sides, `None` where a node or
     * the key is missing, and `(None, None)` when either side is callable.
     */
    function GetAttr(attr: string): (r: (Value, Value))
      ensures !IsCallable(r.0) && !IsCallable(r.1)
      ensures node1.None? || attr !in node1.value.entries ==> r.0 == Null
      ensures node2.None? || attr !in node2.value.entries ==> r.1 == Null
      ensures IsCallable(Side(node1, attr)) || IsCallable(Side(node2, attr)) ==> r == (Null, Null)
      ensures !IsCallable(Side(node1, attr)) && !IsCallable(Side(node2, attr)) ==>
        r == (Side(node1, attr), Side(node2, attr))
    {
      var attr1, attr2 := Side(node1, attr), Side(node2, attr);
      if IsCallable(attr1) || IsCallable(attr2) then (Null, Null) else (attr1, attr2)
    }

    /** `diff_color`: red for a deleted node, green for a new one, gold1 otherwise. */
    function DiffColor(): (c: string)
      ensures c == "red" <==> node2.None?
      ensures c == "green" <==> node1.None? && node2.Some?
      ensures c == "gold1" <==> node1.Some? && node2.Some?
    {
      if IsDeleted() then "red" else if IsNew() then "green" else "gold1"
    }

    /** `diff_attr` prints a line for `attr`: its blanked values differ. */
    predicate Reported(attr: string) {
      Blank(GetAttr(attr).0) != Blank(GetAttr(attr).1)
    }

    /** What `diff_attr(attr)` prints: at most one line, and one exactly when the blanked values differ. */
    function AttrLines(attr: string): (r: seq<string>)
      ensures |r| <= 1
      ensures |r| == 1 <==> Reported(attr)
      ensures |r| == 1 ==> r[0] == AttrLine(DiffColor(), attr, Blank(GetAttr(attr).0), Blank(GetAttr(attr).1))
    {
      var (attr1, attr2) := GetAttr(attr);
      var shown1, shown2 := Blank(attr1), Blank(attr2);
      if shown1 != shown2 then [AttrLine(DiffColor(), attr, shown1, shown2)] else []
    }

    /**
     * What `diff_attrs` prints for the attributes `attrs`, in order: at most
     * one line per attribute, and nothing when no attribute is reported.
     * Which lines these are is stated by `ReportedLineShown`,
     * `ShownLineReported` and `AttrsLinesAppend`.
     */
    function AttrsLines(attrs: seq<string>): (r: seq<string>)
      ensures |r| <= |attrs|
      ensures r == [] <==> forall a :: a in attrs ==> !Reported(a)
      decreases |attrs|
    {
      if attrs == [] then []
      else
        var init, last := attrs[..|attrs| - 1], attrs[|attrs| - 1];
        assert forall a :: a in attrs <==> a in init || a == last;
        AttrsLines(init) + AttrLines(last)
    }

    /** The header `diff` prints for a changed node. */
    function Header(): string {
      match Status()
      case Added => "[green]+ " + ShowName(name)
      case Removed => "[red]- [strike]" + ShowName(name) + "[/strike]"
      case _ => "[green]+ [" + DiffColor() + "]" + ShowName(name)
    }

    /**
     * Everything `diff()` prints. A changed node gets a header and then one
     * line per reported attribute; a missing or unchanged node gets one grey
     * line at verbose level 2 and above and nothing otherwise.
     */
    function DiffLines(): (r: seq<string>)
      ensures IsChanged() ==> r == [Header()] + AttrsLines(Attrs())
      ensures !IsChanged() ==> |r| <= 1 && (r == [] <==> verboseLevel <= 1)
      ensures Status() == BothAbsent && verboseLevel > 1 ==> r == ["[bright_black]  " + ShowName(name) + " is None"]
      ensures Status() == Unchanged && verboseLevel > 1 ==> r == ["[bright_black]  " + ShowName(name) + " is unchanged"]
    {
      match Status()
      case BothAbsent =>
        if verboseLevel > 1 then ["[bright_black]  " + ShowName(name) + " is None"] else []
      case Unchanged =>
        if verboseLevel > 1 then ["[bright_black]  " + ShowName(name) + " is unchanged"] else []
      case _ => [Header()] + AttrsLines(Attrs())
    }

    /** `diff_attr(attr)`. */
    method DiffAttr(attr: string)
      modifies this
      ensures console == old(console) + AttrLines(attr)
    {
      var (attr1, attr2) := GetAttr(attr);
      attr1 := if attr1.Null? then Str("") else attr1;
      attr2 := if attr2.Null? then Str("") else attr2;
      if attr1 != attr2 {
        console := console + [AttrLine(DiffColor(), attr, attr1, attr2)];
      }
    }

    /** `diff_attrs()`. */
    method DiffAttrs()
      modifies this
      ensures console == old(console) + AttrsLines(Attrs())
    {
      var attrs := Attrs();
      for i := 0 to |attrs|
        invariant console == old(console) + AttrsLines(attrs[..i])
      {
        ghost var before, line := AttrsLines(attrs[..i]), AttrLines(attrs[i]);
        AttrsLinesStep(this, attrs, i);
        DiffAttr(attrs[i]);
        AppendAssociative(old(console), before, line);
      }
      assert attrs[..|attrs|] == attrs;
    }

    /** `diff()`. */
    method Diff()
      modifies this
      ensures console == old(console) + DiffLines()
    {
      if IsNone() {
        if verboseLevel > 1 {
          console := console + ["[bright_black]  " + ShowName(name) + " is None"];
        }
      } else if !IsChanged() {
        if verboseLevel > 1 {
          console := console + ["[bright_black]  " + ShowName(name) + " is unchanged"];
        }
      } else if IsNew() {
        ghost var header := "[green]+ " + ShowName(name);
        assert DiffLines() == [header] + AttrsLines(Attrs());
        console := console + ["[green]+ " + ShowName(name)];
        DiffAttrs();
        AppendAssociative(old(console), [header], AttrsLines(Attrs()));
      } else if IsDeleted() {
        ghost var header := "[red]- [strike]" + ShowName(name) + "[/strike]";
        assert DiffLines() == [header] + AttrsLines(Attrs());
        console := console + ["[red]- [strike]" + ShowName(name) + "[/strike]"];
        DiffAttrs();
        AppendAssociative(old(console), [header], AttrsLines(Attrs()));
      } else if IsChanged() {
        ghost var header := "[green]+ [" + DiffColor() + "]" + ShowName(name);
        assert DiffLines() == [header] + AttrsLines(Attrs());
        console := console + ["[green]+ [" + DiffColor() + "]" + ShowName(name)];
        DiffAttrs();
        AppendAssociative(old(console), [header], AttrsLines(Attrs()));
      }
    }
  }

  /**
   * `is_changed` holds when one node is missing and the other is not, or when
   * some key lookup gives different answers, whatever the order the keys
   * were inserted in.
   */
  lemma IsChangedIff(d: NodeDiff)
    ensures d.IsChanged() <==>
      d.node1.None? != d.node2.None? ||
      (d.node1.Some? && d.node2.Some? && exists k :: Get(d.node1.value, k) != Get(d.node2.value, k))
  {
    SameNodeIsLookupEquality(d.node1, d.node2);
  }

  /**
   * Which attributes get a line, in terms of the stored values: both sides
   * are non-callable, they differ, and they are not a missing value against
   * an empty string (`diff_attr` prints both as the empty string).
   */
  lemma ReportedIff(d: NodeDiff, attr: string)
    ensures d.Reported(attr) <==>
      var v1, v2 := Side(d.node1, attr), Side(d.node2, attr);
      !IsCallable(v1) && !IsCallable(v2) && v1 != v2 &&
      !(v1 == Null && v2 == Str("")) && !(v1 == Str("") && v2 == Null)
  {
    var v1, v2 := Side(d.node1, attr), Side(d.node2, attr);
    if !IsCallable(v1) && !IsCallable(v2) {
      assert d.GetAttr(attr) == (v1, v2);
    } else {
      assert d.GetAttr(attr) == (Null, Null);
    }
  }

  /** One more attribute of the loop in `diff_attrs` adds its own lines. */
  lemma AttrsLinesStep(d: NodeDiff, attrs: seq<string>, i: nat)
    requires i < |attrs|
    ensures d.AttrsLines(attrs[..i + 1]) == d.AttrsLines(attrs[..i]) + d.AttrLines(attrs[i])
  {
    assert attrs[..i + 1][..i] == attrs[..i];
  }

  /** Each reported attribute among `attrs` contributes its line to `diff_attrs`' output. */
  lemma {:induction false} ReportedLineShown(d: NodeDiff, attrs: seq<string>, attr: string)
    requires attr in attrs && d.Reported(attr)
    ensures d.AttrLines(attr)[0] in d.AttrsLines(attrs)
    decreases |attrs|
  {
    var init, last := attrs[..|attrs| - 1], attrs[|attrs| - 1];
    var left, right := d.AttrsLines(init), d.AttrLines(last);
    assert d.AttrsLines(attrs) == left + right;
    var i :| 0 <= i < |attrs| && attrs[i] == attr;
    if i < |attrs| - 1 {
      assert init[i] == attr;
      ReportedLineShown(d, init, attr);
    }
    InConcat(d.AttrLines(attr)[0], left, right);
  }

  /** Every line `diff_attrs` prints for `attrs` is the line of a reported attribute among them. */
  lemma {:induction false} ShownLineReported(d: NodeDiff, attrs: seq<string>, l: string)
    requires l in d.AttrsLines(attrs)
    ensures exists a :: a in attrs && d.Reported(a) && l == d.AttrLines(a)[0]
    decreases |attrs|
  {
    assert attrs != [];
    var init, last := attrs[..|attrs| - 1], attrs[|attrs| - 1];
    var left, right := d.AttrsLines(init), d.AttrLines(last);
    assert d.AttrsLines(attrs) == left + right;
    InConcat(l, left, right);
    if l in left {
      ShownLineReported(d, init, l);
      var a :| a in init && d.Reported(a) && l == d.AttrLines(a)[0];
      assert a in attrs;
    } else {
      assert d.Reported(last) && l == d.AttrLines(last)[0];
    }
  }

  /** The lines follow the order of the attributes: those of `a + b` are those of `a`, then those of `b`. */
  lemma {:induction false} AttrsLinesAppend(d: NodeDiff, a: seq<string>, b: seq<string>)
    ensures d.AttrsLines(a + b) == d.AttrsLines(a) + d.AttrsLines(b)
    decreases |b|
  {
    if b == [] {
      assert a + b == a;
    } else {
      var init, last := b[..|b| - 1], b[|b| - 1];
      assert (a + b)[..|a + b| - 1] == a + init && (a + b)[|a + b| - 1] == last;
      AttrsLinesAppend(d, a, init);
      AppendAssociative(d.AttrsLines(a), d.AttrsLines(init), d.AttrLines(last));
    }
  }

  /**
   * A new node prints, under its header, every visible attribute whose value
   * is a non-empty, non-callable value, struck-through empty on the left.
   */
  lemma NewNodeShowsValues(d: NodeDiff, attr: string)
    requires d.node1.None? && d.node2.Some? && attr in d.node2.value.keys && !Hidden(attr)
    requires WellFormed(d.node2.value)
    requires var v := d.node2.value.entries[attr]; !IsCallable(v) && v != Null && v != Str("")
    ensures d.DiffLines()[0] == "[green]+ " + ShowName(d.name)
    ensures AttrLine("green", attr, Str(""), d.node2.value.entries[attr]) in d.DiffLines()
  {
    var v := d.node2.value.entries[attr];
    assert Side(d.node2, attr) == v;
    assert d.GetAttr(attr) == (Null, v);
    assert attr in d.Attrs();
    ReportedLineShown(d, d.Attrs(), attr);
  }

  /**
   * A deleted node prints, under its struck-through header, every visible
   * attribute whose old value is non-empty and non-callable.
   */
  lemma DeletedNodeShowsValues(d: NodeDiff, attr: string)
    requires d.node1.Some? && d.node2.None? && attr in d.node1.value.keys && !Hidden(attr)
    requires WellFormed(d.node1.value)
    requires var v := d.node1.value.entries[attr]; !IsCallable(v) && v != Null && v != Str("")
    ensures d.DiffLines()[0] == "[red]- [strike]" + ShowName(d.name) + "[/strike]"
    ensures AttrLine("red", attr, d.node1.value.entries[attr], Str("")) in d.DiffLines()
  {
    var v := d.node1.value.entries[attr];
    assert Side(d.node1, attr) == v;
    assert d.GetAttr(attr) == (v, Null);
    assert attr in d.Attrs();
    ReportedLineShown(d, d.Attrs(), attr);
  }

  /**
   * For two present nodes, an attribute the new node has whose non-callable
   * value changed is shown in gold, old value struck through, new value in green.
   */
  lemma ModifiedNodeShowsChange(d: NodeDiff, attr: string)
    requires d.node1.Some? && d.node2.Some? && attr in d.node2.value.keys && !Hidden(attr)
    requires WellFormed(d.node1.value) && WellFormed(d.node2.value) && attr in d.node1.value.keys
    requires var v1, v2 := d.node1.value.entries[attr], d.node2.value.entries[attr];
      !IsCallable(v1) && !IsCallable(v2) && v1 != Null && v2 != Null && v1 != v2
    ensures d.Status() == Modified
    ensures AttrLine("gold1", attr, d.node1.value.entries[attr], d.node2.value.entries[attr]) in d.DiffLines()
  {
    var v1, v2 := d.node1.value.entries[attr], d.node2.value.entries[attr];
    assert Get(d.node1.value, attr) != Get(d.node2.value, attr);
    assert d.GetAttr(attr) == (v1, v2);
    assert attr in d.Attrs();
    ReportedLineShown(d, d.Attrs(), attr);
  }

  /** `{"name": "node1", "inputs": "cars", "outputs": "cars"}`, the first node of the tests. */
  function TestNode(): Dict {
    Dict(["name", "inputs", "outputs"],
         map["name" := Str("node1"), "inputs" := Str("cars"), "outputs" := Str("cars")])
  }

  /** `attrs` of the test node, whether it is on both sides, only the new side or only the old. */
  lemma TestAttrs(d: NodeDiff)
    requires (d.node1 == Some(TestNode()) && d.node2 == Some(TestNode()))
          || (d.node1 == None && d.node2 == Some(TestNode()))
          || (d.node1 == Some(TestNode()) && d.node2 == None)
    ensures (set a | a in d.Attrs()) == {"inputs", "outputs", "name"}
  {
    TestKeysVisible();
    assert d.Attrs() == ["name", "inputs", "outputs"];
  }

  lemma TestKeysVisible()
    ensures VisibleKeys(["name", "inputs", "outputs"]) == ["name", "inputs", "outputs"]
  {
    var keys := ["name", "inputs", "outputs"];
    assert "name"[0] != '_' && "inputs"[0] != '_' && "outputs"[0] != '_';
    assert keys[1..] == ["inputs", "outputs"] && keys[1..][1..] == ["outputs"] && keys[1..][1..][1..] == [];
  }

  /** The four `get_attr` tests. */
  lemma TestGetAttr(d: NodeDiff)
    ensures d.node1 == Some(TestNode()) && d.node2 == Some(TestNode()) ==>
      d.GetAttr("name") == (Str("node1"), Str("node1")) && d.GetAttr("not_here") == (Null, Null)
    ensures d.node1 == None && d.node2 == Some(TestNode()) ==> d.GetAttr("name") == (Null, Str("node1"))
    ensures d.node1 == Some(TestNode()) && d.node2 == None ==> d.GetAttr("name") == (Str("node1"), Null)
  {
    assert |"not_here"| != |"name"| && |"not_here"| != |"inputs"|;
    assert "not_here" != "outputs" by {
      assert "not_here"[0] != "outputs"[0];
    }
  }

  /** Two dicts with the same items in a different order are not a change. */
  lemma KeyOrderIgnored(d: NodeDiff, x: Value, y: Value)
    requires d.node1 == Some(Dict(["inputs", "outputs"], map["inputs" := x, "outputs" := y]))
    requires d.node2 == Some(Dict(["outputs", "inputs"], map["outputs" := y, "inputs" := x]))
    ensures !d.IsChanged() && d.Status() == Unchanged
    ensures d.verboseLevel <= 1 ==> d.DiffLines() == []
  {
    assert "inputs" != "outputs";
    assert d.node1.value.entries == d.node2.value.entries;
  }
}
