/** CommentedConfiguration.java: a configuration document whose root section owns no
    node. Loading builds the tree from the nodes the YAML parser yields for the
    primary source, or, when asked to copy defaults and the primary source is absent
    or empty, from the nodes of the defaults document with the ignored paths left out.
    The parser itself is outside the model: a source is the node list it yields. */
module Configuration {
  import opened JavaLang
  import opened ConfigTree
  import opened Sections

  // ---------------------------------------------------------------------------
  // decodeNodes

  /** What decodeNodes leaves behind: the root's children map, and the exception that
      stopped the pass, if one did (the nodes attached before it stay attached). */
  datatype Decoded = Decoded(children: seq<Child>, error: Option<Error>)

  /** decodeNodes(nodes) on a root whose children are `cs`: each node in turn becomes
      a new section without children, attached as createSection attaches it. */
  function Decode(cs: seq<Child>, nodes: seq<Node>): Decoded
    decreases |nodes|
  {
    if nodes == [] then Decoded(cs, None)
    else match CreateIn(cs, Section(Some(nodes[0]), []))
      case Err(e) => Decoded(cs, Some(e))
      case Ok(next) => Decode(next, nodes[1..])
  }

  /** Decoding a concatenation decodes the second part into what the first part
      built, unless the first part already raised. */
  lemma {:induction false} DecodeAppend(cs: seq<Child>, a: seq<Node>, b: seq<Node>)
    ensures Decode(cs, a + b) ==
      if Decode(cs, a).error.Some? then Decode(cs, a) else Decode(Decode(cs, a).children, b)
    decreases |a|
  {
    if a == [] {
      assert a + b == b;
    } else {
      assert (a + b)[0] == a[0] && (a + b)[1..] == a[1..] + b;
      match CreateIn(cs, Section(Some(a[0]), []))
      case Err(e) =>
      case Ok(next) => DecodeAppend(next, a[1..], b);
    }
  }

  /** Attaching one node keeps every top-level key, in order, adding at most its own
      at the end. */
  lemma CreateKeepsKeys(cs: seq<Child>, n: Node)
    requires CreateIn(cs, Section(Some(n), [])).Ok?
    ensures KeysOf(cs) <= KeysOf(CreateIn(cs, Section(Some(n), [])).value)
  {
    CreateInOutcome(None, cs, n, []);
  }

  /** decodeNodes never removes a child of the root nor moves one: the keys it finds
      stay, in order, ahead of any it adds, whether or not the pass raises. */
  lemma {:induction false} DecodeKeepsKeys(cs: seq<Child>, nodes: seq<Node>)
    ensures KeysOf(cs) <= KeysOf(Decode(cs, nodes).children)
    decreases |nodes|
  {
    if nodes != [] {
      match CreateIn(cs, Section(Some(nodes[0]), []))
      case Err(e) =>
      case Ok(next) =>
        CreateKeepsKeys(cs, nodes[0]);
        DecodeKeepsKeys(next, nodes[1..]);
    }
  }

  /** A node whose path is already in the tree replaces the section there: the new
      section holds the node and no children (the old section's children are
      dropped), and its key keeps its place among its siblings. */
  lemma DecodeReplaces(cs: seq<Child>, m: Node)
    requires WellFormedPath(m.path)
    requires Follow(Section(None, cs), Split(m.path)).Some?
    ensures Decode(cs, [m]).error.None?
    ensures Follow(Section(None, Decode(cs, [m]).children), Split(m.path)) == Some(Section(Some(m), []))
    ensures var segs := Split(m.path);
      var parent := Follow(Section(None, cs), segs[..|segs| - 1]);
      var parent' := Follow(Section(None, Decode(cs, [m]).children), segs[..|segs| - 1]);
      parent.Some? && parent'.Some? && KeysOf(parent'.value.children) == KeysOf(parent.value.children)
  {
    var segs := Split(m.path);
    SplitWellFormed(m.path);
    var walk, last := segs[..|segs| - 1], segs[|segs| - 1];
    InitLast(segs);
    FollowSnoc(Section(None, cs), walk, last);
    ReplaceKeepsKeys(cs, m, walk, last);
    DecodeOne(cs, m);
    CreateThenFollow(None, cs, m, []);
  }

  /** Decoding one node that attaches is attaching it. */
  lemma DecodeOne(cs: seq<Child>, m: Node)
    requires CreateIn(cs, Section(Some(m), [])).Ok?
    ensures Decode(cs, [m]) == Decoded(CreateIn(cs, Section(Some(m), [])).value, None)
  {
    assert [m][1..] == [];
  }

  /** Attaching at a key its parent already has leaves the parent's keys as they were. */
  lemma ReplaceKeepsKeys(cs: seq<Child>, m: Node, walk: seq<string>, last: string)
    requires WellFormedPath(m.path) && Split(m.path) == walk + [last]
    requires Follow(Section(None, cs), walk).Some?
    requires last in KeysOf(Follow(Section(None, cs), walk).value.children)
    ensures CreateIn(cs, Section(Some(m), [])).Ok?
    ensures var r := CreateIn(cs, Section(Some(m), [])).value;
      Follow(Section(None, r), walk).Some? &&
      KeysOf(Follow(Section(None, r), walk).value.children) == KeysOf(Follow(Section(None, cs), walk).value.children)
  {
    var segs := Split(m.path);
    CreateInOutcome(None, cs, m, []);
    assert segs[..|segs| - 1] == walk && segs[|segs| - 1] == last;
    if |segs| == 1 {
      assert walk == [];
      SplitWellFormed(m.path);
      assert m.path == Join([last]);
    }
  }

  // ---------------------------------------------------------------------------
  // ignored

  /** One entry of the ignore list matches a path: it occurs in the path, or it is
      the path up to case. */
  predicate Matches(path: string, entry: string)
  {
    ContainsSubstring(path, entry) || EqualsIgnoreCase(path, entry)
  }

  /** ignored(ignore, path). */
  function Ignored(ignore: seq<string>, path: string): (r: bool)
    ensures r <==> exists i :: 0 <= i < |ignore| && Matches(path, ignore[i])
    ensures "" in ignore ==> r
  {
    assert OccursAt(path, "", 0);
    if ignore == [] then false
    else if Matches(path, ignore[0]) then true
    else
      assert forall i :: 1 <= i < |ignore| ==> ignore[i] == ignore[1..][i - 1];
      Ignored(ignore[1..], path)
  }

  // ---------------------------------------------------------------------------
  // The `copied` loop of load

  /** loaded.get(loaded.indexOf(node)) when loaded.contains(node): the first loaded
      node with the same path. */
  function FindPath(nodes: seq<Node>, path: string): (r: Option<Node>)
    ensures r.Some? ==> r.value in nodes && r.value.path == path
    ensures r.None? <==> forall n :: n in nodes ==> n.path != path
  {
    if nodes == [] then None
    else if nodes[0].path == path then Some(nodes[0])
    else FindPath(nodes[1..], path)
  }

  /** The list the `copied` loop builds from the defaults tree's nodes: a loaded node
      with the same path replaces the default, an ignored default is skipped, any
      other default is copied. */
  function Copied(defaultNodes: seq<Node>, loaded: seq<Node>, ignore: seq<string>): seq<Node>
  {
    if defaultNodes == [] then []
    else
      var init := Copied(defaultNodes[..|defaultNodes| - 1], loaded, ignore);
      var y := defaultNodes[|defaultNodes| - 1];
      match FindPath(loaded, y.path)
      case Some(u) => init + [u]
      case None => if Ignored(ignore, y.path) then init else init + [y]
  }

  /** The loop itself. */
  method CopyDefaults(defaultNodes: seq<Node>, loaded: seq<Node>, ignore: seq<string>) returns (copied: seq<Node>)
    ensures copied == Copied(defaultNodes, loaded, ignore)
  {
    copied := [];
    var i := 0;
    while i < |defaultNodes|
      invariant i <= |defaultNodes|
      invariant copied == Copied(defaultNodes[..i], loaded, ignore)
    {
      var node := defaultNodes[i];
      assert defaultNodes[..i + 1][..i] == defaultNodes[..i];
      var found := FindPath(loaded, node.path);
      if found.None? {
        if !Ignored(ignore, node.path) {
          copied := copied + [node];
        }
      } else {
        copied := copied + [found.value];
      }
      i := i + 1;
    }
    assert defaultNodes[..|defaultNodes|] == defaultNodes;
  }

  /** The defaults in their order with the ignored ones left out. */
  function Unignored(ignore: seq<string>, nodes: seq<Node>): (r: seq<Node>)
    ensures forall n :: n in r <==> n in nodes && !Ignored(ignore, n.path)
    ensures |r| <= |nodes|
  {
    if nodes == [] then [] else Kept(ignore, nodes[0]) + Unignored(ignore, nodes[1..])
  }

  /** One node, unless it is ignored. */
  function Kept(ignore: seq<string>, n: Node): seq<Node>
  {
    if Ignored(ignore, n.path) then [] else [n]
  }

  lemma {:induction false} UnignoredSnoc(ignore: seq<string>, nodes: seq<Node>, y: Node)
    ensures Unignored(ignore, nodes + [y]) == Unignored(ignore, nodes) + Kept(ignore, y)
  {
    var a := nodes + [y];
    if nodes == [] {
      assert a == [y] && a[1..] == [];
    } else {
      assert a[0] == nodes[0] && a[1..] == nodes[1..] + [y];
      UnignoredSnoc(ignore, nodes[1..], y);
    }
  }

  /** With nothing loaded, the `copied` loop copies the defaults in their order and
      leaves out exactly the ignored ones. */
  lemma {:induction false} CopiedFromDefaults(defaultNodes: seq<Node>, ignore: seq<string>)
    ensures Copied(defaultNodes, [], ignore) == Unignored(ignore, defaultNodes)
  {
    if defaultNodes != [] {
      var init, y := defaultNodes[..|defaultNodes| - 1], defaultNodes[|defaultNodes| - 1];
      assert defaultNodes == init + [y];
      CopiedFromDefaults(init, ignore);
      UnignoredSnoc(ignore, init, y);
    }
  }

  /** An empty ignore list copies every default. */
  lemma {:induction false} CopiedIgnoringNothing(defaultNodes: seq<Node>)
    ensures Copied(defaultNodes, [], []) == defaultNodes
  {
    if defaultNodes != [] {
      var init := defaultNodes[..|defaultNodes| - 1];
      CopiedIgnoringNothing(init);
      assert init + [defaultNodes[|defaultNodes| - 1]] == defaultNodes;
    }
  }

  /** Every copied node is either the loaded node for its path, or a default that is
      not ignored and has no loaded counterpart; and a loaded node whose path some
      default has is always copied (the user's value wins over the default). */
  lemma {:induction false} CopiedMembers(defaultNodes: seq<Node>, loaded: seq<Node>, ignore: seq<string>)
    ensures forall x :: x in Copied(defaultNodes, loaded, ignore) ==>
      FindPath(loaded, x.path) == Some(x) ||
      (x in defaultNodes && !Ignored(ignore, x.path) && FindPath(loaded, x.path).None?)
    ensures forall y :: y in defaultNodes && FindPath(loaded, y.path).Some? ==>
      FindPath(loaded, y.path).value in Copied(defaultNodes, loaded, ignore)
  {
    if defaultNodes != [] {
      var init, y := defaultNodes[..|defaultNodes| - 1], defaultNodes[|defaultNodes| - 1];
      assert defaultNodes == init + [y];
      CopiedMembers(init, loaded, ignore);
    }
  }

  /** The `copied` loop only looks at the loaded nodes through FindPath. */
  lemma {:induction false} CopiedAgrees(defaultNodes: seq<Node>, loaded: seq<Node>, other: seq<Node>, ignore: seq<string>)
    requires forall y :: y in defaultNodes ==> FindPath(other, y.path) == FindPath(loaded, y.path)
    ensures Copied(defaultNodes, other, ignore) == Copied(defaultNodes, loaded, ignore)
  {
    if defaultNodes != [] {
      CopiedAgrees(defaultNodes[..|defaultNodes| - 1], loaded, other, ignore);
    }
  }

  /** Running the loop again on its own result changes nothing, when the loaded
      nodes already cover every default that is not ignored. */
  lemma CopiedIdempotent(defaultNodes: seq<Node>, loaded: seq<Node>, ignore: seq<string>)
    requires forall y :: y in defaultNodes && !Ignored(ignore, y.path) ==> FindPath(loaded, y.path).Some?
    ensures Copied(defaultNodes, Copied(defaultNodes, loaded, ignore), ignore) == Copied(defaultNodes, loaded, ignore)
  {
    var m := Copied(defaultNodes, loaded, ignore);
    CopiedMembers(defaultNodes, loaded, ignore);
    forall y | y in defaultNodes
      ensures FindPath(m, y.path) == FindPath(loaded, y.path)
    {
      match FindPath(loaded, y.path)
      case Some(u) =>
        assert u in m;
        var x := FindPath(m, y.path).value;
        assert FindPath(loaded, x.path) == Some(x);
      case None =>
    }
    CopiedAgrees(defaultNodes, loaded, m, ignore);
  }

  // ---------------------------------------------------------------------------
  // load

  /** The nodes the primary source yields; none when there is no source. */
  function Loaded(file: Option<seq<Node>>): seq<Node>
  {
    if file.None? then [] else file.value
  }

  /** load copies defaults when asked to, when there is a defaults source, and when the
      primary source is absent or yields nothing. */
  predicate Seeds(copyDefaults: bool, file: Option<seq<Node>>, defaults: Option<seq<Node>>)
  {
    copyDefaults && defaults.Some? && (file.None? || |Loaded(file)| == 0)
  }

  /** The list load hands to decodeNodes, or the exception raised while the defaults
      document was being loaded. */
  function ToDecode(copyDefaults: bool, file: Option<seq<Node>>, defaults: Option<seq<Node>>, ignore: seq<string>): Result<seq<Node>>
  {
    if Seeds(copyDefaults, file, defaults) then
      var defaultTree := Decode([], defaults.value);
      if defaultTree.error.Some? then Err(defaultTree.error.value)
      else Ok(Copied(Flatten(defaultTree.children), Loaded(file), ignore))
    else Ok(Loaded(file))
  }

  /** load(copyDefaults, ignore) on a root whose children are `cs`. */
  function LoadResult(cs: seq<Child>, copyDefaults: bool, file: Option<seq<Node>>, defaults: Option<seq<Node>>, ignore: seq<string>): Decoded
  {
    match ToDecode(copyDefaults, file, defaults, ignore)
    case Err(e) => Decoded(cs, Some(e))
    case Ok(nodes) => Decode(cs, nodes)
  }

  /** Without seeding, load decodes the primary source's nodes as they are; with it,
      it decodes the nodes of the defaults tree, in its pre-order, with the ignored
      ones removed. No loaded node is ever substituted, since seeding happens only
      when nothing was loaded. */
  lemma LoadCases(cs: seq<Child>, copyDefaults: bool, file: Option<seq<Node>>, defaults: Option<seq<Node>>, ignore: seq<string>)
    ensures !Seeds(copyDefaults, file, defaults) ==>
      LoadResult(cs, copyDefaults, file, defaults, ignore) == Decode(cs, Loaded(file))
    ensures Seeds(copyDefaults, file, defaults) ==> Loaded(file) == []
    ensures Seeds(copyDefaults, file, defaults) && Decode([], defaults.value).error.None? ==>
      LoadResult(cs, copyDefaults, file, defaults, ignore) ==
        Decode(cs, Unignored(ignore, Flatten(Decode([], defaults.value).children)))
  {
    if Seeds(copyDefaults, file, defaults) && Decode([], defaults.value).error.None? {
      CopiedFromDefaults(Flatten(Decode([], defaults.value).children), ignore);
    }
  }

  /** load never removes or reorders the root's existing children. */
  lemma LoadKeepsKeys(cs: seq<Child>, copyDefaults: bool, file: Option<seq<Node>>, defaults: Option<seq<Node>>, ignore: seq<string>)
    ensures KeysOf(cs) <= KeysOf(LoadResult(cs, copyDefaults, file, defaults, ignore).children)
  {
    match ToDecode(copyDefaults, file, defaults, ignore)
    case Err(e) =>
    case Ok(nodes) => DecodeKeepsKeys(cs, nodes);
  }

  class CommentedConfiguration {
    /** The configuration's own section tree (the ConfigSection it extends). */
    const root: ConfigSection
    /** The nodes the primary source yields; None for a null reader. */
    const file: Option<seq<Node>>
    /** The nodes the defaults source yields; None for a null reader. */
    const defaults: Option<seq<Node>>

    constructor (file: Option<seq<Node>>, defaults: Option<seq<Node>>)
      ensures this.file == file && this.defaults == defaults
      ensures fresh(root) && root.baseNode.None? && root.children == []
    {
      this.file := file;
      this.defaults := defaults;
      root := new ConfigSection(None);
    }

    /** decodeNodes(nodes): attaches each node in turn with createSection; an
        exception ends the pass. */
    method DecodeNodes(nodes: seq<Node>) returns (error: Option<Error>)
      modifies root
      ensures Decoded(root.children, error) == Decode(old(root.children), nodes)
    {
      var i := 0;
      while i < |nodes|
        invariant i <= |nodes|
        invariant Decode(root.children, nodes[i..]) == Decode(old(root.children), nodes)
      {
        assert nodes[i..][0] == nodes[i] && nodes[i..][1..] == nodes[i + 1..];
        var outcome := root.CreateSection(Section(Some(nodes[i]), []));
        if outcome.Err? {
          return Some(outcome.error);
        }
        i := i + 1;
      }
      return None;
    }

    /** load() is load(true). */
    method Load() returns (error: Option<Error>)
      modifies root
      ensures Decoded(root.children, error) == LoadResult(old(root.children), true, file, defaults, [])
    {
      error := LoadWith(true);
    }

    /** load(copyDefaults) is load(copyDefaults, an empty list). */
    method LoadWith(copyDefaults: bool) returns (error: Option<Error>)
      modifies root
      ensures Decoded(root.children, error) == LoadResult(old(root.children), copyDefaults, file, defaults, [])
      decreases if copyDefaults then 1 else 0, 2
    {
      error := LoadWithIgnore(copyDefaults, []);
    }

    /** load(copyDefaults, ignore): the defaults, when they are copied, come from a
        second document that reads the defaults source as its primary source and is
        loaded without copying. */
    method LoadWithIgnore(copyDefaults: bool, ignore: seq<string>) returns (error: Option<Error>)
      modifies root
      ensures Decoded(root.children, error) == LoadResult(old(root.children), copyDefaults, file, defaults, ignore)
      decreases if copyDefaults then 1 else 0, 1
    {
      var loaded := if file.None? then [] else file.value;
      if copyDefaults && defaults.Some? {
        if file.None? || |loaded| == 0 {
          var defaultConfig := new CommentedConfiguration(defaults, None);
          var failed := defaultConfig.LoadWith(false);
          if failed.Some? {
            return failed;
          }
          var defaultNodes := defaultConfig.root.GetNodeValues();
          var copied := CopyDefaults(defaultNodes, loaded, ignore);
          error := DecodeNodes(copied);
        } else {
          error := DecodeNodes(loaded);
        }
      } else {
        error := DecodeNodes(loaded);
      }
    }
  }
}
