/**
 * The Python values stored in a kedro node record, and node records as
 * Python dictionaries. Both node differs (kedro_diff/node_diff/node_diff.py and
 * the older kedro_diff/node_diff.py) compare such dictionaries.
 */
module Values {
  import opened Wrappers
  import opened Strings

  /**
   * An attribute value: Python `None`, a string, a list of strings, or a
   * callable (a node's function), told apart only by an opaque identity.
   */
  datatype Value = Null | Str(s: string) | StrList(items: seq<string>) | Callable(id: nat)

  /** Python's `callable(v)`. */
  predicate IsCallable(v: Value) {
    v.Callable?
  }

  /** Python's `repr` of a string that needs no escaping. */
  function Quote(s: string): string {
    "'" + s + "'"
  }

  /** Python's `str(v)`, which is what an f-string inserts. */
  function Show(v: Value): string {
    match v
    case Null => "None"
    case Str(s) => s
    case StrList(items) =>
      "[" + Join(seq(|items|, i requires 0 <= i < |items| => Quote(items[i])), ", ") + "]"
    case Callable(_) => "<function>"
  }

  /** An f-string of an `Optional[str]`: `None` prints as `None`. */
  function ShowName(name: Option<string>): string {
    match name
    case None => "None"
    case Some(s) => s
  }

  /**
   * A Python `dict` of node attributes: `keys` in insertion order (the order
   * `dict.keys()` yields) and `entries` the mapping itself.
   */
  datatype Dict = Dict(keys: seq<string>, entries: map<string, Value>)

  predicate Distinct(keys: seq<string>) {
    forall i, j :: 0 <= i < j < |keys| ==> keys[i] != keys[j]
  }

  /** What every Python dict satisfies: distinct keys, exactly the mapping's domain. */
  ghost predicate WellFormed(d: Dict) {
    Distinct(d.keys) && forall k :: k in d.entries <==> k in d.keys
  }

  /** Python's `d[k] = v`: a new key goes last, an existing key keeps its place. */
  function Insert(d: Dict, k: string, v: Value): (r: Dict)
    ensures WellFormed(d) ==> WellFormed(r)
    ensures r.entries == d.entries[k := v]
  {
    if k in d.entries then Dict(d.keys, d.entries[k := v])
    else Dict(d.keys + [k], d.entries[k := v])
  }

  /** A dict literal `{k0: v0, k1: v1, ...}`: later duplicates overwrite earlier ones. */
  function FromPairs(pairs: seq<(string, Value)>): (d: Dict)
    ensures WellFormed(d)
    ensures forall i :: 0 <= i < |pairs| ==> pairs[i].0 in d.entries
    decreases |pairs|
  {
    if pairs == [] then Dict([], map[])
    else
      var last := pairs[|pairs| - 1];
      Insert(FromPairs(pairs[..|pairs| - 1]), last.0, last.1)
  }

  /** Python's `d[k]` on a dict, with `None` for the `KeyError`. */
  function Get(d: Dict, k: string): Option<Value> {
    if k in d.entries then Some(d.entries[k]) else None
  }

  /** Python's `==` between two `Optional[dict]` values. */
  predicate SameNode(a: Option<Dict>, b: Option<Dict>) {
    match (a, b)
    case (None, None) => true
    case (Some(x), Some(y)) => x.entries == y.entries
    case _ => false
  }

  /** Two dicts are equal exactly when every key lookup agrees, whatever the key order. */
  lemma SameNodeIsLookupEquality(a: Option<Dict>, b: Option<Dict>)
    ensures SameNode(a, b) <==>
      (a.None? && b.None?) ||
      (a.Some? && b.Some? && forall k :: Get(a.value, k) == Get(b.value, k))
  {
    if a.Some? && b.Some? && forall k :: Get(a.value, k) == Get(b.value, k) {
      var x, y := a.value, b.value;
      assert forall k :: k in x.entries <==> k in y.entries by {
        forall k ensures k in x.entries <==> k in y.entries {
          assert Get(x, k) == Get(y, k);
        }
      }
      forall k | k in x.entries ensures x.entries[k] == y.entries[k] {
        assert Get(x, k) == Get(y, k);
      }
      assert x.entries == y.entries;
    }
  }

  /** Python's `s.startswith("_")`: names kedro-diff never compares. */
  predicate Hidden(attr: string) {
    StartsWith(attr, "_")
  }

  /** `[a for a in keys if not a.startswith("_")]`. */
  function VisibleKeys(keys: seq<string>): (r: seq<string>)
    ensures forall a :: a in r <==> a in keys && !Hidden(a)
    ensures |r| <= |keys|
    ensures Distinct(keys) ==> Distinct(r)
    decreases |keys|
  {
    if keys == [] then []
    else
      var rest := VisibleKeys(keys[1..]);
      assert forall a :: a in keys <==> a == keys[0] || a in keys[1..];
      if Hidden(keys[0]) then rest else [keys[0]] + rest
  }

  /** Filtering keeps the order of the keys: the filter of a concatenation is the concatenation of the filters. */
  lemma {:induction false} VisibleKeysAppend(a: seq<string>, b: seq<string>)
    ensures VisibleKeys(a + b) == VisibleKeys(a) + VisibleKeys(b)
    decreases |a|
  {
    if a == [] {
      assert a + b == b;
    } else {
      assert (a + b)[0] == a[0];
      assert (a + b)[1..] == a[1..] + b;
      VisibleKeysAppend(a[1..], b);
    }
  }

  /** The attribute column of a diff line: `f"{attr}:      "[:10]`. */
  function AttrLabel(attr: string): (r: string)
    ensures |r| == if |attr| + 7 < 10 then |attr| + 7 else 10
    ensures r <= attr + ":      "
    ensures |attr| < 10 ==> r[..|attr|] == attr
  {
    var padded := attr + ":      ";
    if |padded| < 10 then padded else padded[..10]
  }

  /**
   * The line both node differs print for a changed attribute: the label
   * column, the old value struck through in red, the new value in green,
   * with the whole line coloured `color`.
   */
  function AttrLine(color: string, attr: string, before: Value, after: Value): string {
    "[" + color + "]    " + AttrLabel(attr) + " [red][strike]" + Show(before) + "[/strike] [green]" + Show(after)
  }
}
