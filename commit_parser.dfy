/**
 * `parse_commit` (kedro_diff/commit_parser.py): turns what the user typed
 * after `kedro diff` (one string, or the tuple of command-line words) into
 * the two commits to compare, and the file-name rule `load_commit_metadata`
 * uses to find the metadata each commit's snapshot was saved with.
 */
module CommitParser {
  import opened Wrappers
  import opened Strings

  /** The argument: a `str`, or a tuple of strings. */
  datatype CommitArg = Text(s: string) | Parts(ps: seq<string>)

  /** The three ways `parse_commit` raises `KedroDiffError`. */
  datatype ParseError =
    | NoCommit        // zero parts
    | TooManyCommits  // more than two parts
    | EmptyTarget     // the second commit is empty

  /** `tuple(flatten([c.split(sep) for c in ps]))`. */
  function SplitAll(ps: seq<string>, sep: string): (r: seq<string>)
    requires |sep| > 0
    ensures forall k :: 0 <= k < |r| ==> !Contains(r[k], sep)
    ensures |r| >= |ps|
    decreases |ps|
  {
    if ps == [] then []
    else
      var head, tail := Split(ps[0], sep), SplitAll(ps[1..], sep);
      assert forall k :: 0 <= k < |head| + |tail| ==> (head + tail)[k] == if k < |head| then head[k] else tail[k - |head|];
      head + tail
  }

  /**
   * `sep in str(ps)`. The repr of a tuple of strings quotes each element and
   * separates them by `', '`, so a run of dots in it lies inside one element.
   */
  predicate AnyContains(ps: seq<string>, sep: string) {
    exists k :: 0 <= k < |ps| && Contains(ps[k], sep)
  }

  /** Splitting every part never adds characters, and removes some when a part holds `sep`. */
  lemma {:induction false} SplitAllShrinks(ps: seq<string>, sep: string)
    requires |sep| > 0
    ensures TotalLength(SplitAll(ps, sep)) <= TotalLength(ps)
    ensures AnyContains(ps, sep) ==> TotalLength(SplitAll(ps, sep)) < TotalLength(ps)
    decreases |ps|
  {
    if ps != [] {
      SplitShrinks(ps[0], sep);
      SplitAllShrinks(ps[1..], sep);
      TotalLengthAppend(Split(ps[0], sep), SplitAll(ps[1..], sep));
      if AnyContains(ps, sep) && !Contains(ps[0], sep) {
        var k :| 0 <= k < |ps| && Contains(ps[k], sep);
        assert ps[1..][k - 1] == ps[k];
      }
    }
  }

  /** What `parse_commit` recurses on: the total length, then strings before tuples. */
  function Measure(c: CommitArg): nat {
    match c
    case Text(s) => |s|
    case Parts(ps) => TotalLength(ps)
  }

  function Tag(c: CommitArg): nat {
    if c.Text? then 1 else 0
  }

  /**
   * The end of `parse_commit`, on a tuple with no dotted range left: the
   * number of parts, the `HEAD` default for a missing or empty first commit,
   * and the error for an empty second one.
   */
  function Finish(ps: seq<string>): (r: Result<(string, string), ParseError>)
    ensures r == Err(NoCommit) <==> |ps| == 0
    ensures r == Err(TooManyCommits) <==> |ps| > 2
    ensures r == Err(EmptyTarget) <==> 1 <= |ps| <= 2 && ps[|ps| - 1] == ""
    ensures r.Ok? ==> r.value.1 == ps[|ps| - 1]
    ensures r.Ok? ==> r.value.0 == if |ps| == 2 && ps[0] != "" then ps[0] else "HEAD"
    ensures r.Ok? ==> r.value.0 != "" && r.value.1 != ""
  {
    if |ps| == 0 then Err(NoCommit)
    else if |ps| > 2 then Err(TooManyCommits)
    else
      var (commit1, commit2) := if |ps| == 2 then (ps[0], ps[1]) else ("HEAD", ps[0]);
      var commit1 := if commit1 == "" then "HEAD" else commit1;
      if commit2 == "" then Err(EmptyTarget) else Ok((commit1, commit2))
  }

  /**
   * `parse_commit(commit)`. A string is split on `...` when it holds one and
   * on `..` otherwise; a tuple any of whose parts holds `...` (then `..`) has
   * every part split and the pieces flattened; each time parsing starts over.
   * The commits it returns are never empty and never hold `..`.
   */
  function ParseCommit(c: CommitArg): (r: Result<(string, string), ParseError>)
    ensures r.Ok? ==> r.value.0 != "" && r.value.1 != ""
    ensures r.Ok? ==> !Contains(r.value.0, "..") && !Contains(r.value.1, "..")
    decreases Measure(c), Tag(c)
  {
    match c
    case Text(s) =>
      if Contains(s, "...") then
        SplitShrinks(s, "...");
        ParseCommit(Parts(Split(s, "...")))
      else
        SplitShrinks(s, "..");
        ParseCommit(Parts(Split(s, "..")))
    case Parts(ps) =>
      if AnyContains(ps, "...") then
        SplitAllShrinks(ps, "...");
        ParseCommit(Parts(SplitAll(ps, "...")))
      else if AnyContains(ps, "..") then
        SplitAllShrinks(ps, "..");
        ParseCommit(Parts(SplitAll(ps, "..")))
      else
        var r := Finish(ps);
        assert r.Ok? ==> r.value.0 == "HEAD" || r.value.0 == ps[0];
        NotContainsWithoutFirst("HEAD", "..");
        r
  }

  /** A tuple none of whose parts holds `..` goes straight to the length checks. */
  lemma PlainParts(ps: seq<string>)
    requires forall k :: 0 <= k < |ps| ==> !Contains(ps[k], "..")
    ensures ParseCommit(Parts(ps)) == Finish(ps)
  {
    forall k | 0 <= k < |ps| ensures !Contains(ps[k], "...") {
      if Contains(ps[k], "...") {
        ContainsPrefix(ps[k], "...", "..");
      }
    }
  }

  /** A string without `..` names one commit, compared against `HEAD`. */
  lemma SingleCommit(s: string)
    requires !Contains(s, "..")
    ensures ParseCommit(Text(s)) == if s == "" then Err(EmptyTarget) else Ok(("HEAD", s))
  {
    if Contains(s, "...") {
      ContainsPrefix(s, "...", "..");
    }
    SplitPieces(s, "..");
    PlainParts([s]);
  }

  /** A commit that can start a range: it holds no `..` and does not end in a dot. */
  predicate RangeStart(a: string) {
    !Contains(a, "..") && (a == "" || a[|a| - 1] != '.')
  }

  /** A commit that can end a two-dot range: it holds no `..` and does not start with a dot. */
  predicate RangeEnd(b: string) {
    !Contains(b, "..") && (b == "" || b[0] != '.')
  }

  /** `A..B` holds no `...` when `A` can start a range and `B` neither starts with a dot nor holds `...`. */
  lemma NoTripleDot(a: string, b: string)
    requires RangeStart(a) && !Contains(b, "...") && (b == "" || b[0] != '.')
    ensures !Contains(a + ".." + b, "...")
  {
    var s := a + ".." + b;
    forall i: nat | i + 3 <= |s| ensures !OccursAt(s, "...", i) {
      if i + 3 <= |a| {
        NoDoubleAt(a, i);
        assert s[i] == a[i] && s[i + 1] == a[i + 1];
      } else if i < |a| {
        assert s[|a| - 1] == a[|a| - 1];
      } else if i <= |a| + 1 {
        assert s[|a| + 2] == b[0];
      } else {
        var k := i - |a| - 2;
        NoTripleAt(b, k);
        assert s[i] == b[k] && s[i + 1] == b[k + 1] && s[i + 2] == b[k + 2];
      }
      NotTripleDotAt(s, i);
    }
  }

  /** Where `..` does not occur, one of the two characters is not a dot. */
  lemma NoDoubleAt(t: string, i: nat)
    requires !Contains(t, "..") && i + 2 <= |t|
    ensures t[i] != '.' || t[i + 1] != '.'
  {
    assert t[i..i + 2] == [t[i], t[i + 1]];
    assert !OccursAt(t, "..", i);
  }

  /** Where `...` does not occur, one of the three characters is not a dot. */
  lemma NoTripleAt(t: string, i: nat)
    requires !Contains(t, "...") && i + 3 <= |t|
    ensures t[i] != '.' || t[i + 1] != '.' || t[i + 2] != '.'
  {
    assert t[i..i + 3] == [t[i], t[i + 1], t[i + 2]];
    assert !OccursAt(t, "...", i);
  }

  /** Three characters one of which is not a dot are not `...`. */
  lemma NotTripleDotAt(s: string, i: nat)
    requires i + 3 <= |s| && (s[i] != '.' || s[i + 1] != '.' || s[i + 2] != '.')
    ensures !OccursAt(s, "...", i)
  {
    assert s[i..i + 3][0] == s[i] && s[i..i + 3][1] == s[i + 1] && s[i..i + 3][2] == s[i + 2];
  }

  /**
   * `A..B` compares `A` (or `HEAD` when `A` is empty) with `B`, when `A`
   * holds no `..` and does not end in a dot, and `B` holds no `..` and does
   * not start with one (`v1.0..v2.0`, `release-0.17..main`).
   */
  lemma TwoDotRange(a: string, b: string)
    requires RangeStart(a) && RangeEnd(b)
    ensures ParseCommit(Text(a + ".." + b)) == Finish([a, b])
  {
    if Contains(b, "...") {
      ContainsPrefix(b, "...", "..");
    }
    NoTripleDot(a, b);
    SplitRange(a, "..", b);
  }

  /** `A...B` compares `A` (or `HEAD`) with `B`, when `A` can start a range and `B` holds no `..`. */
  lemma ThreeDotRange(a: string, b: string)
    requires RangeStart(a) && !Contains(b, "..")
    ensures ParseCommit(Text(a + "..." + b)) == Finish([a, b])
  {
    ContainsMiddle(a, "...", b);
    SplitRange(a, "...", b);
  }

  /** Splitting a range on its own separator leaves its two ends, which parse as a pair. */
  lemma SplitRange(a: string, sep: string, b: string)
    requires sep == ".." || sep == "..."
    requires RangeStart(a) && !Contains(b, "..")
    ensures Split(a + sep + b, sep) == [a, b]
    ensures ParseCommit(Parts([a, b])) == Finish([a, b])
  {
    if Contains(a, "...") {
      ContainsPrefix(a, "...", "..");
    }
    SplitAroundDots(a, sep, b);
    if Contains(b, "...") {
      ContainsPrefix(b, "...", "..");
    }
    SplitPieces(b, sep);
    PlainParts([a, b]);
  }

  /** A one-word tuple `("A..B",)` is parsed like the string `"A..B"`. */
  lemma TupleTwoDotRange(a: string, b: string)
    requires RangeStart(a) && RangeEnd(b)
    ensures ParseCommit(Parts([a + ".." + b])) == Finish([a, b])
  {
    var two := a + ".." + b;
    ContainsMiddle(a, "..", b);
    if Contains(b, "...") {
      ContainsPrefix(b, "...", "..");
    }
    NoTripleDot(a, b);
    assert !AnyContains([two], "...");
    assert Contains([two][0], "..");
    SplitRange(a, "..", b);
    assert [two][1..] == [];
    assert SplitAll([two], "..") == Split(two, "..") + SplitAll([], "..") == [a, b];
    assert ParseCommit(Parts([two])) == ParseCommit(Parts(SplitAll([two], "..")));
  }

  /** A one-word tuple `("A...B",)` is parsed like the string `"A...B"`. */
  lemma TupleThreeDotRange(a: string, b: string)
    requires RangeStart(a) && !Contains(b, "..")
    ensures ParseCommit(Parts([a + "..." + b])) == Finish([a, b])
  {
    var three := a + "..." + b;
    ContainsMiddle(a, "...", b);
    assert Contains([three][0], "...");
    SplitRange(a, "...", b);
    assert [three][1..] == [];
    assert SplitAll([three], "...") == Split(three, "...") + SplitAll([], "...") == [a, b];
    assert ParseCommit(Parts([three])) == ParseCommit(Parts(SplitAll([three], "...")));
  }

  /**
   * Commits that can be chained with `..`: none holds `..`, all but the last
   * do not end in a dot, and all but the first are non-empty and do not
   * start with a dot.
   */
  predicate ChainParts(parts: seq<string>) {
    (forall k :: 0 <= k < |parts| ==> !Contains(parts[k], ".."))
    && (forall k :: 0 <= k < |parts| - 1 ==> parts[k] == "" || parts[k][|parts[k]| - 1] != '.')
    && (forall k :: 1 <= k < |parts| ==> parts[k] != "" && parts[k][0] != '.')
  }

  /** Splitting chainable commits joined by `..` gives the commits back. */
  lemma {:induction false} SplitJoined(parts: seq<string>)
    requires |parts| >= 1 && ChainParts(parts)
    ensures Split(Join(parts, ".."), "..") == parts
    decreases |parts|
  {
    if |parts| == 1 {
      SplitPieces(parts[0], "..");
    } else {
      var head, rest := parts[0], parts[1..];
      ChainTail(parts);
      var joined := Join(rest, "..");
      SplitJoined(rest);
      SplitAroundDots(head, "..", joined);
      assert Join(parts, "..") == head + ".." + joined;
      assert parts == [head] + rest;
    }
  }

  /** The commits after the first of a chain form a chain, and the first can start a range. */
  lemma ChainTail(parts: seq<string>)
    requires |parts| >= 2 && ChainParts(parts)
    ensures ChainParts(parts[1..]) && RangeStart(parts[0])
    ensures parts[1] != "" && parts[1][0] != '.'
  {
    var rest := parts[1..];
    forall k | 0 <= k < |rest| ensures rest[k] == parts[k + 1] {
    }
  }

  /** Chainable commits joined by `..` hold no `...`. */
  lemma {:induction false} JoinedNoTripleDot(parts: seq<string>)
    requires |parts| >= 1 && ChainParts(parts)
    ensures !Contains(Join(parts, ".."), "...")
    decreases |parts|
  {
    if |parts| == 1 {
      if Contains(parts[0], "...") {
        ContainsPrefix(parts[0], "...", "..");
      }
    } else {
      var head, tail := parts[0], parts[1..];
      ChainTail(parts);
      var rest := Join(tail, "..");
      JoinedNoTripleDot(tail);
      assert rest[0] == parts[1][0];
      NoTripleDot(head, rest);
      assert Join(parts, "..") == head + ".." + rest;
    }
  }

  /**
   * `A..B..C...`: chainable commits joined by `..` parse as that tuple, so
   * three or more of them are too many.
   */
  lemma ManyDotRange(parts: seq<string>)
    requires |parts| >= 1 && ChainParts(parts)
    ensures ParseCommit(Text(Join(parts, ".."))) == Finish(parts)
    ensures |parts| > 2 ==> ParseCommit(Text(Join(parts, ".."))) == Err(TooManyCommits)
  {
    JoinedNoTripleDot(parts);
    SplitJoined(parts);
    PlainParts(parts);
  }

  /** The tuple rows of the `parse_commit` test table. */
  lemma ParseTupleTests()
    ensures ParseCommit(Parts(["master", "main"])) == Ok(("master", "main"))
    ensures ParseCommit(Parts(["main", "master"])) == Ok(("main", "master"))
    ensures ParseCommit(Parts(["master", "develop"])) == Ok(("master", "develop"))
    ensures ParseCommit(Parts(["master", "develop/new-feat"])) == Ok(("master", "develop/new-feat"))
    ensures ParseCommit(Parts(["main"])) == Ok(("HEAD", "main"))
    ensures ParseCommit(Parts(["main", "master", "develop"])) == Err(TooManyCommits)
    ensures ParseCommit(Parts([])) == Err(NoCommit)
  {
    NotContainsWithoutFirst("master", "..");
    NotContainsWithoutFirst("main", "..");
    NotContainsWithoutFirst("develop", "..");
    NotContainsWithoutFirst("develop/new-feat", "..");
    PlainParts(["master", "main"]);
    PlainParts(["main", "master"]);
    PlainParts(["master", "develop"]);
    PlainParts(["master", "develop/new-feat"]);
    PlainParts(["main"]);
    PlainParts(["main", "master", "develop"]);
  }

  /** A single commit, with or without a slash, is compared with `HEAD`; an empty one is refused. */
  lemma ParseSingleTests()
    ensures ParseCommit(Text("main")) == Ok(("HEAD", "main"))
    ensures ParseCommit(Text("develop/new-feat")) == Ok(("HEAD", "develop/new-feat"))
    ensures ParseCommit(Text("")) == Err(EmptyTarget)
  {
    NotContainsWithoutFirst("main", "..");
    NotContainsWithoutFirst("develop/new-feat", "..");
    NotContainsWithoutFirst("", "..");
    SingleCommit("main");
    SingleCommit("develop/new-feat");
    SingleCommit("");
  }

  /**
   * The rows of the test table that pass one range string `a + sep + b`:
   * `master..main`, `master...main`, `master...develop/new-feat` and
   * `..develop/new-feat`; an empty start stands for `HEAD`.
   */
  lemma ParseRangeTest(a: string, sep: string, b: string)
    requires (a == "master" && sep == ".." && b == "main")
          || (a == "master" && sep == "..." && b == "main")
          || (a == "master" && sep == "..." && b == "develop/new-feat")
          || (a == "" && sep == ".." && b == "develop/new-feat")
    ensures ParseCommit(Text(a + sep + b)) == Ok((if a == "" then "HEAD" else a, b))
  {
    NotContainsWithoutFirst(a, "..");
    NotContainsWithoutFirst(b, "..");
    if sep == ".." {
      TwoDotRange(a, b);
    } else {
      ThreeDotRange(a, b);
    }
  }

  /**
   * The rows of the test table that pass a one-word tuple holding a range:
   * `("master...main",)`, `("master..main",)`, `("..main",)` and `("...main",)`.
   */
  lemma ParseTupleRangeTest(a: string, sep: string, b: string)
    requires (a == "master" && sep == "..." && b == "main")
          || (a == "master" && sep == ".." && b == "main")
          || (a == "" && sep == ".." && b == "main")
          || (a == "" && sep == "..." && b == "main")
    ensures ParseCommit(Parts([a + sep + b])) == Ok((if a == "" then "HEAD" else a, b))
  {
    NotContainsWithoutFirst(a, "..");
    NotContainsWithoutFirst(b, "..");
    if sep == ".." {
      TupleTwoDotRange(a, b);
    } else {
      TupleThreeDotRange(a, b);
    }
  }

  /**
   * The rows of the test table that chain more than two commits with `..`:
   * `main..master..develop` and
   * `main..master..develop..mine..yours..ours..thiers`, each written as the
   * `..`-join of its words.
   */
  lemma ParseChainTest(words: seq<string>)
    requires words == ["main", "master", "develop"]
          || words == ["main", "master", "develop", "mine", "yours", "ours", "thiers"]
    ensures ParseCommit(Text(Join(words, ".."))) == Err(TooManyCommits)
  {
    forall k | 0 <= k < |words| ensures !Contains(words[k], "..") {
      NotContainsWithoutFirst(words[k], "..");
    }
    ManyDotRange(words);
  }

  /**
   * Release-style ranges whose ends hold single dots, `v1.0..v2.0` and
   * `release-0.17...main`, compare their two ends.
   */
  lemma DottedRangeTest(a: string, sep: string, b: string)
    requires (a == "v1.0" && sep == ".." && b == "v2.0")
          || (a == "release-0.17" && sep == "..." && b == "main")
    ensures ParseCommit(Text(a + sep + b)) == Ok((a, b))
  {
    NoDoubledChar(a, '.');
    NoDoubledChar(b, '.');
    assert ".." == ['.', '.'];
    if sep == ".." {
      TwoDotRange(a, b);
    } else {
      ThreeDotRange(a, b);
    }
  }

  /** The suffix of every metadata file name. */
  const MetadataSuffix := "-commit-metadata.json"

  /**
   * The file `load_commit_metadata` reads for `commit` under `.kedro-diff`:
   * the commit with every `/` and space turned into `_`, then the suffix.
   */
  function MetadataFileName(commit: string): (r: string)
    ensures |r| == |commit| + |MetadataSuffix| && r[|commit|..] == MetadataSuffix
    ensures forall k :: 0 <= k < |commit| ==>
      r[k] == if commit[k] == '/' || commit[k] == ' ' then '_' else commit[k]
    ensures '/' !in r[..|commit|] && ' ' !in r[..|commit|]
  {
    var safe := Replace(Replace(commit, '/', '_'), ' ', '_');
    assert (safe + MetadataSuffix)[..|commit|] == safe;
    safe + MetadataSuffix
  }

  /**
   * The file `get_pipelines` writes the metadata of `commit` to: only `/`
   * is turned into `_`.
   */
  function WrittenMetadataFileName(commit: string): (r: string)
    ensures |r| == |commit| + |MetadataSuffix| && r[|commit|..] == MetadataSuffix
    ensures forall k :: 0 <= k < |commit| ==> r[k] == if commit[k] == '/' then '_' else commit[k]
  {
    Replace(commit, '/', '_') + MetadataSuffix
  }

  /** The reader looks where the writer wrote exactly when the commit has no space. */
  lemma ReaderFindsWriter(commit: string)
    ensures MetadataFileName(commit) == WrittenMetadataFileName(commit) <==> ' ' !in commit
  {
    var read, written := MetadataFileName(commit), WrittenMetadataFileName(commit);
    if ' ' in commit {
      var k :| 0 <= k < |commit| && commit[k] == ' ';
      assert read[k] != written[k];
    } else {
      assert forall k :: 0 <= k < |read| ==> read[k] == written[k];
    }
  }

  /** Commits differing only in `/` against `_` share one metadata file. */
  lemma MetadataNamesCollide()
    ensures MetadataFileName("feat/x") == MetadataFileName("feat_x")
  {
    var a, b := MetadataFileName("feat/x"), MetadataFileName("feat_x");
    assert forall k :: 0 <= k < |a| ==> a[k] == b[k];
  }

  /**
   * `load_commit_metadata(commit)` up to the file reads: the two paths, under
   * `.kedro-diff`, of the metadata files of the parsed commits.
   */
  function LoadCommitMetadata(c: CommitArg): (r: Result<(string, string), ParseError>)
    ensures r.Ok? <==> ParseCommit(c).Ok?
    ensures r.Err? ==> r.error == ParseCommit(c).error
    ensures r.Ok? ==> r.value == (".kedro-diff/" + MetadataFileName(ParseCommit(c).value.0),
                                  ".kedro-diff/" + MetadataFileName(ParseCommit(c).value.1))
  {
    match ParseCommit(c)
    case Err(e) => Err(e)
    case Ok((commit1, commit2)) =>
      Ok((".kedro-diff/" + MetadataFileName(commit1), ".kedro-diff/" + MetadataFileName(commit2)))
  }

  /** A commit with neither `/` nor a space is its own file name, suffixed. */
  lemma PlainCommitFileName(commit: string)
    requires '/' !in commit && ' ' !in commit
    ensures MetadataFileName(commit) == commit + MetadataSuffix
  {
    var r := MetadataFileName(commit);
    assert forall k :: 0 <= k < |r| ==> r[k] == (commit + MetadataSuffix)[k];
  }

  /** A two-dot range loads the metadata files of its two ends. */
  lemma LoadTwoDotRange(a: string, b: string)
    requires RangeStart(a) && RangeEnd(b) && b != ""
    ensures LoadCommitMetadata(Text(a + ".." + b))
      == Ok((".kedro-diff/" + MetadataFileName(if a == "" then "HEAD" else a), ".kedro-diff/" + MetadataFileName(b)))
  {
    TwoDotRange(a, b);
  }

  /**
   * The rows of the `load_commit_metadata` test table: `main..HEAD`,
   * `main..hs0af0ahj`, `main..feat/new-nodes` and `main..feat/new.nodes`
   * each load the two files named after their ends.
   */
  lemma LoadCommitMetadataTest(a: string, b: string)
    requires a == "main"
    requires b == "HEAD" || b == "hs0af0ahj" || b == "feat/new-nodes" || b == "feat/new.nodes"
    ensures LoadCommitMetadata(Text(a + ".." + b))
      == Ok((".kedro-diff/" + MetadataFileName(a), ".kedro-diff/" + MetadataFileName(b)))
    ensures MetadataFileName(a) == a + MetadataSuffix
    ensures '/' !in b ==> MetadataFileName(b) == b + MetadataSuffix
  {
    TestBranchNoRange(b);
    NotContainsWithoutFirst(a, "..");
    LoadTwoDotRange(a, b);
    PlainCommitFileName(a);
    if '/' !in b {
      PlainCommitFileName(b);
    }
  }


  lemma TestBranchNoRange(b: string)
    requires b == "HEAD" || b == "hs0af0ahj" || b == "feat/new-nodes" || b == "feat/new.nodes"
    ensures !Contains(b, "..") && b != "" && b[0] != '.'
  {
    NoDoubledChar(b, '.');
    assert ".." == ['.', '.'];
  }
}
