/**
 * The older `NodeDiff` (kedro_diff/node_diff.py), which the package still
 * ships beside the rewrite in kedro_diff/node_diff/node_diff.py. It compares
 * two node dictionaries, reading each attribute with `getattr` first and
 * indexing second, and prints what it finds to a rich `Console`, modelled as
 * the sequence of strings handed to `console.print`.
 */
module LegacyNodeDiff {
  import opened Wrappers
  import opened Strings
  import opened Values
  import Rewrite = NodeDiff

  /**
   * The public attributes of a Python `dict`; all are methods, so `getattr`
   * on a dict node yields a callable for these names instead of the item.
   */
  const DictMethodNames: set<string> :=
    {"clear", "copy", "fromkeys", "get", "items", "keys", "pop", "popitem", "setdefault", "update", "values"}

  /**
   * One side of `get_attr` before the callable check: `getattr(node, attr)`,
   * falling back to `node[attr]`; `None` has no public attributes and
   * indexing it raises the `TypeError` that is mapped to `None`.
   */
  function Side(node: Option<Dict>, attr: string): Value {
    match node
    case None => Null
    case Some(d) =>
      if attr in DictMethodNames then Callable(0)
      else if attr in d.entries then d.entries[attr]
      else Null
  }

  /** `len(v) > 0` for a value that is not `None`. */
  predicate NonEmpty(v: Value) {
    match v
    case Str(s) => |s| > 0
    case StrList(items) => |items| > 0
    case _ => false
  }

  /** Rich markup that strikes `s` through. */
  function Struck(s: string): string {
    "[strike]" + s + "[/strike]"
  }

  /** The line listing a value of a new node under the attribute's full name. */
  function NewValueLine(attr: string, v: Value): string {
    "[green]    " + attr + ": " + Show(v)
  }

  /** The line listing a value of a deleted node, struck through. */
  function DeletedValueLine(attr: string, v: Value): string {
    "[red]    " + attr + ": nodediff[strike]" + Show(v)
  }

  /** The line reporting an unchanged node. */
  function UnchangedLine(name: Option<string>): string {
    "[bright_black]  " + ShowName(name) + " is unchanged"
  }

  class NodeDiff {
    const node1: Option<Dict>
    const node2: Option<Dict>
    const name: Option<string>
    /** 0 silent, 1 (default) only differing nodes, 2 every node. */
    const verboseLevel: int
    /** Everything handed to `console.print` so far, one entry per call. */
    var console: seq<string>

    constructor(node1: Option<Dict> := None, node2: Option<Dict> := None,
                name: Option<string> := None, verboseLevel: int := 1)
      ensures this.node1 == node1 && this.node2 == node2
      ensures this.name == name && this.verboseLevel == verboseLevel
      ensures console == []
    {
      this.node1 := node1;
      this.node2 := node2;
      this.name := name;
      this.verboseLevel := verboseLevel;
      console := [];
    }

    /** `node1 != node2`: dictionary equality ignores the order of the keys. */
    predicate IsChanged() {
      !SameNode(node1, node2)
    }

    /**
     * `is_none()`: both nodes are missing. Unlike the other tests it is a
     * plain method, not a property, which decides how `diff` reads it.
     */
    predicate IsNone()
      ensures IsNone() ==> !IsChanged()
    {
      node1.None? && node2.None?
    }

    /** `node1 is None`: the target side alone is present, or neither side is. */
    predicate IsNew()
      ensures IsNew() && node2.Some? ==> IsChanged()
    {
      node1.None?
    }

    /** `node2 is None`: the base side alone is present, or neither side is. */
    predicate IsDeleted()
      ensures IsDeleted() && node1.Some? ==> IsChanged()
    {
      node2.None?
    }

    /**
     * `mod_name`: the name, struck through for a deleted node, and `None`
     * (the function falls off its end) for a node present on both sides that changed.
     */
    function ModName(): (r: Option<string>)
      ensures node1.Some? && node2.Some? && IsChanged() ==> r == None
      ensures node2.None? && node1.Some? ==> r == Some(Struck(ShowName(name)))
      ensures !IsChanged() || node1.None? ==> r == name
    {
      if !IsChanged() then name
      else if IsNew() then name
      else if IsDeleted() then Some(Struck(ShowName(name)))
      else None
    }

    /**
     * `attrs`: the visible keys of the new node, or of the old one when the
     * node was deleted; `None` stands for the `AttributeError` that
     * `None.keys()` raises when both nodes are missing.
     */
    function Attrs(): (r: Option<seq<string>>)
      ensures r.None? <==> node1.None? && node2.None?
      ensures node2.Some? ==> r.Some? && forall a :: a in r.value <==> a in node2.value.keys && !Hidden(a)
      ensures node2.None? && node1.Some? ==>
        r.Some? && forall a :: a in r.value <==> a in node1.value.keys && !Hidden(a)
      ensures node2.Some? ==> r == Some(VisibleKeys(node2.value.keys))
      ensures node2.None? && node1.Some? ==> r == Some(VisibleKeys(node1.value.keys))
    {
      var node := if IsDeleted() then node1 else node2;
      match node
      case None => None
      case Some(d) => Some(VisibleKeys(d.keys))
    }

    /**
     * `get_attr(attr)`: both sides, `(None, None)` when either is callable,
     * which every dict method name is on a present node.
     */
    function GetAttr(attr: string): (r: (Value, Value))
      ensures !IsCallable(r.0) && !IsCallable(r.1)
      ensures node1.None? ==> r.0 == Null
      ensures node2.None? ==> r.1 == Null
      ensures (node1.Some? || node2.Some?) && attr in DictMethodNames ==> r == (Null, Null)
      ensures !IsCallable(Side(node1, attr)) && !IsCallable(Side(node2, attr)) ==>
        r == (Side(node1, attr), Side(node2, attr))
    {
      var attr1, attr2 := Side(node1, attr), Side(node2, attr);
      if IsCallable(attr1) || IsCallable(attr2) then (Null, Null) else (attr1, attr2)
    }

    /**
     * What `diff_attr(attr)` prints: one gold line exactly when the two
     * values differ, `None` printed as `None` (nothing is blanked here).
     */
    function DiffAttrLines(attr: string): (r: seq<string>)
      ensures |r| <= 1
      ensures |r| == 1 <==> GetAttr(attr).0 != GetAttr(attr).1
      ensures |r| == 1 ==> r[0] == AttrLine("gold1", attr, GetAttr(attr).0, GetAttr(attr).1)
    {
      var (attr1, attr2) := GetAttr(attr);
      if IsCallable(attr1) || IsCallable(attr2) then []
      else if attr1 != attr2 then [AttrLine("gold1", attr, attr1, attr2)]
      else []
    }

    /** The line the new-node loop of `diff` prints for `attr`: its non-empty new value. */
    function NewAttrLines(attr: string): (r: seq<string>)
      ensures |r| <= 1
      ensures |r| == 1 <==> NonEmpty(GetAttr(attr).1)
      ensures |r| == 1 ==> r[0] == NewValueLine(attr, GetAttr(attr).1)
    {
      var (_, attr2) := GetAttr(attr);
      if attr2 != Null && NonEmpty(attr2) then [NewValueLine(attr, attr2)] else []
    }

    /** The line the deleted-node loop of `diff` prints for `attr`: its non-empty old value. */
    function DeletedAttrLines(attr: string): (r: seq<string>)
      ensures |r| <= 1
      ensures |r| == 1 <==> NonEmpty(GetAttr(attr).0)
      ensures |r| == 1 ==> r[0] == DeletedValueLine(attr, GetAttr(attr).0)
    {
      var (attr1, _) := GetAttr(attr);
      if attr1 != Null && NonEmpty(attr1) then [DeletedValueLine(attr, attr1)] else []
    }

    /** The loop body `diff` runs for `attr`, which depends on which nodes are present. */
    function AttrReport(attr: string): (r: seq<string>)
      ensures |r| <= 1
    {
      if IsNew() then NewAttrLines(attr)
      else if IsDeleted() then DeletedAttrLines(attr)
      else DiffAttrLines(attr)
    }

    /** What the attribute loop of `diff` prints for `attrs`, in order. */
    function AttrsReport(attrs: seq<string>): (r: seq<string>)
      ensures |r| <= |attrs|
      ensures r == [] <==> forall a :: a in attrs ==> AttrReport(a) == []
      decreases |attrs|
    {
      if attrs == [] then []
      else
        var init, last := attrs[..|attrs| - 1], attrs[|attrs| - 1];
        assert forall a :: a in attrs <==> a in init || a == last;
        AttrsReport(init) + AttrReport(last)
    }

    /** The header `diff` prints for a changed node. */
    function Header(): string {
      if IsNew() then "[green]+ " + ShowName(name)
      else if IsDeleted() then "[red]- " + ShowName(ModName())
      else "[green]+ [gold1]" + ShowName(name)
    }

    /**
     * Everything `diff()` prints, as written: its first test is `not
     * self.is_none`, the negation of a bound method, which is always false,
     * so that branch is never taken and two missing nodes fall through to
     * the unchanged branch.
     */
    function DiffLines(): (r: seq<string>)
      ensures IsChanged() ==> r == [Header()] + AttrsReport(Attrs().value)
      ensures !IsChanged() ==> |r| <= 1 && (r == [] <==> verboseLevel <= 1)
      ensures !IsChanged() && verboseLevel > 1 ==> r == [UnchangedLine(name)]
    {
      if !IsChanged() then
        if verboseLevel > 1 then [UnchangedLine(name)] else []
      else [Header()] + AttrsReport(Attrs().value)
    }

    /** `diff_attr(attr)`. */
    method DiffAttr(attr: string)
      modifies this
      ensures console == old(console) + DiffAttrLines(attr)
    {
      var (attr1, attr2) := GetAttr(attr);
      if IsCallable(attr1) || IsCallable(attr2) {
        return;
      }
      if attr1 != attr2 {
        console := console + [AttrLine("gold1", attr, attr1, attr2)];
      }
    }

    /** The loop of the new-node branch of `diff`: each non-empty new value under its full name. */
    method ListNewAttrs()
      requires node1.None? && node2.Some?
      modifies this
      ensures console == old(console) + AttrsReport(Attrs().value)
    {
      var attrs := Attrs().value;
      for i := 0 to |attrs|
        invariant console == old(console) + AttrsReport(attrs[..i])
      {
        ghost var before := AttrsReport(attrs[..i]);
        AttrsReportStep(this, attrs, i);
        assert AttrReport(attrs[i]) == NewAttrLines(attrs[i]);
        var (_, attr2) := GetAttr(attrs[i]);
        if attr2 != Null {
          if NonEmpty(attr2) {
            console := console + [NewValueLine(attrs[i], attr2)];
          }
        }
        AppendAssociative(old(console), before, NewAttrLines(attrs[i]));
      }
      assert attrs[..|attrs|] == attrs;
    }

    /** The loop of the deleted-node branch of `diff`: each non-empty old value, struck through. */
    method ListDeletedAttrs()
      requires node1.Some? && node2.None?
      modifies this
      ensures console == old(console) + AttrsReport(Attrs().value)
    {
      var attrs := Attrs().value;
      for i := 0 to |attrs|
        invariant console == old(console) + AttrsReport(attrs[..i])
      {
        ghost var before := AttrsReport(attrs[..i]);
        AttrsReportStep(this, attrs, i);
        assert AttrReport(attrs[i]) == DeletedAttrLines(attrs[i]);
        var (attr1, _) := GetAttr(attrs[i]);
        if attr1 != Null {
          if NonEmpty(attr1) {
            console := console + [DeletedValueLine(attrs[i], attr1)];
          }
        }
        AppendAssociative(old(console), before, DeletedAttrLines(attrs[i]));
      }
      assert attrs[..|attrs|] == attrs;
    }

    /** The loop of the changed-node branch of `diff`: `diff_attr` for each attribute. */
    method DiffAttrs()
      requires node1.Some? && node2.Some?
      modifies this
      ensures console == old(console) + AttrsReport(Attrs().value)
    {
      var attrs := Attrs().value;
      for i := 0 to |attrs|
        invariant console == old(console) + AttrsReport(attrs[..i])
      {
        ghost var before := AttrsReport(attrs[..i]);
        AttrsReportStep(this, attrs, i);
        assert AttrReport(attrs[i]) == DiffAttrLines(attrs[i]);
        DiffAttr(attrs[i]);
        AppendAssociative(old(console), before, DiffAttrLines(attrs[i]));
      }
      assert attrs[..|attrs|] == attrs;
    }

    /** `diff()`; the branch guarded by `not self.is_none` is left out, since it is never taken. */
    method Diff()
      modifies this
      ensures console == old(console) + DiffLines()
    {
      if !IsChanged() {
        if verboseLevel > 1 {
          console := console + [UnchangedLine(name)];
        }
      } else if IsNew() {
        console := console + ["[green]+ " + ShowName(name)];
        ListNewAttrs();
        AppendAssociative(old(console), [Header()], AttrsReport(Attrs().value));
      } else if IsDeleted() {
        console := console + ["[red]- " + ShowName(ModName())];
        ListDeletedAttrs();
        AppendAssociative(old(console), [Header()], AttrsReport(Attrs().value));
      } else if IsChanged() {
        console := console + ["[green]+ [gold1]" + ShowName(name)];
        DiffAttrs();
        AppendAssociative(old(console), [Header()], AttrsReport(Attrs().value));
      }
    }
  }

  /**
   * As written, two missing nodes are reported as unchanged at verbose
   * level 2 and above (the rewrite reports them as `None`), and silently below.
   */
  lemma BothAbsentReportedUnchanged(d: NodeDiff)
    requires d.node1.None? && d.node2.None?
    ensures d.verboseLevel > 1 ==> d.DiffLines() == [UnchangedLine(d.name)]
    ensures d.verboseLevel <= 1 ==> d.DiffLines() == []
  {
  }

  /** A key named like a dict method is never shown, whatever its values. */
  lemma DictMethodKeysNeverShown(d: NodeDiff, attr: string)
    requires d.node1.Some? || d.node2.Some?
    requires attr in DictMethodNames
    ensures d.AttrReport(attr) == []
  {
    assert d.GetAttr(attr) == (Null, Null);
  }

  /** One more attribute of an attribute loop of `diff` adds that attribute's lines. */
  lemma AttrsReportStep(d: NodeDiff, attrs: seq<string>, i: nat)
    requires i < |attrs|
    ensures d.AttrsReport(attrs[..i + 1]) == d.AttrsReport(attrs[..i]) + d.AttrReport(attrs[i])
  {
    assert attrs[..i + 1][..i] == attrs[..i];
  }

  /** Each attribute whose loop body prints contributes its line to the output of `diff`. */
  lemma {:induction false} ReportShown(d: NodeDiff, attrs: seq<string>, attr: string)
    requires attr in attrs && d.AttrReport(attr) != []
    ensures d.AttrReport(attr)[0] in d.AttrsReport(attrs)
    decreases |attrs|
  {
    var init, last := attrs[..|attrs| - 1], attrs[|attrs| - 1];
    var left, right := d.AttrsReport(init), d.AttrReport(last);
    assert d.AttrsReport(attrs) == left + right;
    var i :| 0 <= i < |attrs| && attrs[i] == attr;
    if i < |attrs| - 1 {
      assert init[i] == attr;
      ReportShown(d, init, attr);
    }
    InConcat(d.AttrReport(attr)[0], left, right);
  }

  /** Every line the attribute loop of `diff` prints for `attrs` comes from one attribute among them. */
  lemma {:induction false} ReportedLineFromAttr(d: NodeDiff, attrs: seq<string>, l: string)
    requires l in d.AttrsReport(attrs)
    ensures exists a :: a in attrs && d.AttrReport(a) != [] && l == d.AttrReport(a)[0]
    decreases |attrs|
  {
    assert attrs != [];
    var init, last := attrs[..|attrs| - 1], attrs[|attrs| - 1];
    var left, right := d.AttrsReport(init), d.AttrReport(last);
    assert d.AttrsReport(attrs) == left + right;
    InConcat(l, left, right);
    if l in left {
      ReportedLineFromAttr(d, init, l);
      var a :| a in init && d.AttrReport(a) != [] && l == d.AttrReport(a)[0];
      assert a in attrs;
    } else {
      assert d.AttrReport(last) != [] && l == d.AttrReport(last)[0];
    }
  }

  /** The lines follow the order of the attributes: those of `a + b` are those of `a`, then those of `b`. */
  lemma {:induction false} AttrsReportAppend(d: NodeDiff, a: seq<string>, b: seq<string>)
    ensures d.AttrsReport(a + b) == d.AttrsReport(a) + d.AttrsReport(b)
    decreases |b|
  {
    if b == [] {
      assert a + b == a;
    } else {
      var init, last := b[..|b| - 1], b[|b| - 1];
      assert (a + b)[..|a + b| - 1] == a + init && (a + b)[|a + b| - 1] == last;
      AttrsReportAppend(d, a, init);
      AppendAssociative(d.AttrsReport(a), d.AttrsReport(init), d.AttrReport(last));
    }
  }

  /**
   * A new node lists each visible, non-empty attribute of the new node, with
   * its full name, unless the name is a dict method's.
   */
  lemma NewNodeListsValues(d: NodeDiff, attr: string)
    requires d.node1.None? && d.node2.Some? && attr in d.node2.value.keys && !Hidden(attr)
    requires WellFormed(d.node2.value) && attr !in DictMethodNames
    requires NonEmpty(d.node2.value.entries[attr])
    ensures d.DiffLines()[0] == "[green]+ " + ShowName(d.name)
    ensures NewValueLine(attr, d.node2.value.entries[attr]) in d.DiffLines()
  {
    var v := d.node2.value.entries[attr];
    assert d.GetAttr(attr) == (Null, v);
    assert attr in d.Attrs().value;
    ReportShown(d, d.Attrs().value, attr);
  }

  /** A deleted node lists each visible, non-empty attribute of the old node. */
  lemma DeletedNodeListsValues(d: NodeDiff, attr: string)
    requires d.node1.Some? && d.node2.None? && attr in d.node1.value.keys && !Hidden(attr)
    requires WellFormed(d.node1.value) && attr !in DictMethodNames
    requires NonEmpty(d.node1.value.entries[attr])
    ensures d.DiffLines()[0] == "[red]- " + Struck(ShowName(d.name))
    ensures DeletedValueLine(attr, d.node1.value.entries[attr]) in d.DiffLines()
  {
    var v := d.node1.value.entries[attr];
    assert d.GetAttr(attr) == (v, Null);
    assert attr in d.Attrs().value;
    ReportShown(d, d.Attrs().value, attr);
  }

  /**
   * Without blanking, a missing value against an empty string is a change:
   * the line shows `None` struck through.
   */
  lemma NoneAgainstEmptyReported(d: NodeDiff, attr: string)
    requires d.node1.Some? && d.node2.Some? && attr !in DictMethodNames
    requires attr !in d.node1.value.entries && attr in d.node2.value.entries
    requires d.node2.value.entries[attr] == Str("")
    ensures d.DiffAttrLines(attr) == [AttrLine("gold1", attr, Null, Str(""))]
  {
    assert d.GetAttr(attr) == (Null, Str(""));
  }

  /**
   * For two present nodes, the rewrite prints the same line for an attribute
   * as the older differ whenever neither value is missing and the name is
   * not a dict method's.
   */
  lemma ModifiedAgreesWithRewrite(e: NodeDiff, d: Rewrite.NodeDiff, attr: string)
    requires e.node1 == d.node1 && e.node2 == d.node2 && e.node1.Some? && e.node2.Some?
    requires attr !in DictMethodNames && attr in e.node1.value.entries && attr in e.node2.value.entries
    requires e.node1.value.entries[attr] != Null && e.node2.value.entries[attr] != Null
    ensures e.AttrReport(attr) == d.AttrLines(attr)
  {
    var v1, v2 := e.node1.value.entries[attr], e.node2.value.entries[attr];
    assert Side(e.node1, attr) == Rewrite.Side(d.node1, attr) == v1;
    assert Side(e.node2, attr) == Rewrite.Side(d.node2, attr) == v2;
    assert d.DiffColor() == "gold1";
  }
}
