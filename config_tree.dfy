/** The configuration tree of ConfigSection.java, as values. A section optionally owns
    one node (the root owns none) and keeps its children in a LinkedHashMap from one
    path segment to a child section. Every section the library inserts into a map
    owns a node, so a map entry is a `Child` that carries its key, its node and its
    own children. */
module ConfigTree {
  import opened JavaLang

  /** A YamlNode as the parser yields it: the full dotted path and the ordered values
      (empty for a pure container). */
  datatype Node = Node(path: string, values: seq<string>)

  /** One entry of a children map: the key and the section stored under it. */
  datatype Child = Child(key: string, node: Node, children: seq<Child>)

  /** A ConfigSection: its own node, if any, and its children in insertion order. */
  datatype Section = Section(base: Option<Node>, children: seq<Child>)

  function AsSection(c: Child): Section
  {
    Section(Some(c.node), c.children)
  }

  predicate NoDup<T(==)>(xs: seq<T>)
  {
    forall i, j :: 0 <= i < j < |xs| ==> xs[i] != xs[j]
  }

  // ---------------------------------------------------------------------------
  // The children map: LinkedHashMap<String, ConfigSection>

  /** The map's keys in iteration order. */
  function KeysOf(cs: seq<Child>): (r: seq<string>)
  {
    if cs == [] then [] else [cs[0].key] + KeysOf(cs[1..])
  }

  /** LinkedHashMap.get: the entry under `key`, if there is one. */
  function Get(cs: seq<Child>, key: string): (r: Option<Child>)
    ensures r.Some? <==> key in KeysOf(cs)
    ensures r.Some? ==> r.value.key == key && r.value in cs
  {
    if cs == [] then None
    else if cs[0].key == key then Some(cs[0])
    else Get(cs[1..], key)
  }

  /** LinkedHashMap.put: a present key keeps its place and takes the new section;
      a new key goes last; every other key keeps its section. */
  function Put(cs: seq<Child>, c: Child): (r: seq<Child>)
    ensures KeysOf(r) == if c.key in KeysOf(cs) then KeysOf(cs) else KeysOf(cs) + [c.key]
    ensures Get(r, c.key) == Some(c)
    ensures forall k :: k != c.key ==> Get(r, k) == Get(cs, k)
    ensures NoDup(KeysOf(cs)) ==> NoDup(KeysOf(r))
  {
    if cs == [] then [c]
    else if cs[0].key == c.key then
      var r := [c] + cs[1..];
      assert r[0] == c && r[1..] == cs[1..];
      r
    else
      var rest := Put(cs[1..], c);
      var r := [cs[0]] + rest;
      assert r[0] == cs[0] && r[1..] == rest;
      NoDupCons(cs[0].key, KeysOf(cs[1..]));
      NoDupCons(cs[0].key, KeysOf(rest));
      r
  }

  lemma NoDupCons<T>(x: T, xs: seq<T>)
    ensures NoDup([x] + xs) <==> x !in xs && NoDup(xs)
  {
    var ys := [x] + xs;
    assert forall i :: 0 <= i < |xs| ==> ys[i + 1] == xs[i];
    if NoDup(ys) {
      forall i | 0 <= i < |xs|
        ensures xs[i] != x
      {
        assert ys[0] != ys[i + 1];
      }
    }
  }

  // ---------------------------------------------------------------------------
  // Path lookup: getSection, getNode, contains

  /** children.get(key) on a section, as the section found. */
  function Lookup(s: Section, key: string): Option<Section>
  {
    match Get(s.children, key)
    case None => None
    case Some(c) => Some(AsSection(c))
  }

  /** getSection's for-loop from iteration `i` on, `cursor` being the section reached
      so far (None for null). The loop stops at the first segment equal, ignoring case,
      to the last one and returns that segment's child of the cursor, dereferencing a
      null cursor; a null cursor at any other segment breaks out and yields null. */
  function Walk(cursor: Option<Section>, segs: seq<string>, i: nat): Result<Option<Section>>
    requires i <= |segs|
    decreases |segs| - i
  {
    if i == |segs| then Ok(cursor)
    else if EqualsIgnoreCase(segs[i], segs[|segs| - 1]) then
      if cursor.None? then Err(NullPointer) else Ok(Lookup(cursor.value, segs[i]))
    else if cursor.None? then Ok(None)
    else Walk(Lookup(cursor.value, segs[i]), segs, i + 1)
  }

  /** getSection(path). */
  function SectionAt(s: Section, path: string): Result<Option<Section>>
  {
    Walk(Some(s), Split(path), 0)
  }

  /** getNode's loop: as getSection's, except that the child at the stopping segment
      is dereferenced too (a missing one is a null pointer), and after a break a null
      cursor gives null and any other its node. */
  function NodeWalk(cursor: Option<Section>, segs: seq<string>, i: nat): Result<Option<Node>>
    requires i <= |segs|
    decreases |segs| - i
  {
    if i == |segs| then Ok(if cursor.None? then None else cursor.value.base)
    else if EqualsIgnoreCase(segs[i], segs[|segs| - 1]) then
      if cursor.None? then Err(NullPointer)
      else match Lookup(cursor.value, segs[i])
        case None => Err(NullPointer)
        case Some(t) => Ok(t.base)
    else if cursor.None? then Ok(None)
    else NodeWalk(Lookup(cursor.value, segs[i]), segs, i + 1)
  }

  /** getNode(path). */
  function NodeAt(s: Section, path: string): Result<Option<Node>>
  {
    NodeWalk(Some(s), Split(path), 0)
  }

  /** contains(path): getSection(path) != null, its exception passed on. */
  function Contains(s: Section, path: string): (r: Result<bool>)
    ensures r.Err? <==> SectionAt(s, path).Err?
    ensures r.Ok? ==> (r.value <==> SectionAt(s, path).value.Some?)
  {
    match SectionAt(s, path)
    case Err(e) => Err(e)
    case Ok(found) => Ok(found.Some?)
  }

  /** The section reached from `s` by one case-sensitive children.get per segment,
      None as soon as one is missing. */
  function Follow(s: Section, segs: seq<string>): Option<Section>
    decreases segs
  {
    if segs == [] then Some(s)
    else match Lookup(s, segs[0])
      case None => None
      case Some(t) => Follow(t, segs[1..])
  }

  lemma {:induction false} FollowSnoc(s: Section, segs: seq<string>, k: string)
    ensures Follow(s, segs + [k]) == match Follow(s, segs) case None => None case Some(t) => Lookup(t, k)
    decreases segs
  {
    if segs == [] {
      assert Follow(s, [k]) == match Lookup(s, k) case None => None case Some(t) => Follow(t, []);
    } else {
      assert (segs + [k])[0] == segs[0];
      assert (segs + [k])[1..] == segs[1..] + [k];
      match Lookup(s, segs[0])
      case None =>
      case Some(t) => FollowSnoc(t, segs[1..], k);
    }
  }

  lemma {:induction false} FollowMissing(s: Section, segs: seq<string>, i: nat, j: nat)
    requires i <= j <= |segs| && Follow(s, segs[..i]).None?
    ensures Follow(s, segs[..j]).None?
    decreases j - i
  {
    if i < j {
      FollowSnoc(s, segs[..i], segs[i]);
      assert segs[..i] + [segs[i]] == segs[..i + 1];
      FollowMissing(s, segs, i + 1, j);
    }
  }

  /** The first segment equal, ignoring case, to the last one from `i` on. */
  function FirstMatchFrom(segs: seq<string>, i: nat): (j: nat)
    requires i < |segs|
    ensures i <= j < |segs| && EqualsIgnoreCase(segs[j], segs[|segs| - 1])
    ensures forall k :: i <= k < j ==> !EqualsIgnoreCase(segs[k], segs[|segs| - 1])
    decreases |segs| - i
  {
    if EqualsIgnoreCase(segs[i], segs[|segs| - 1]) then i else FirstMatchFrom(segs, i + 1)
  }

  /** The segment at which getSection's loop returns. */
  function FirstMatch(segs: seq<string>): (j: nat)
    requires |segs| >= 1
    ensures j < |segs| && EqualsIgnoreCase(segs[j], segs[|segs| - 1])
    ensures forall k :: 0 <= k < j ==> !EqualsIgnoreCase(segs[k], segs[|segs| - 1])
  {
    FirstMatchFrom(segs, 0)
  }

  lemma {:induction false} WalkFrom(s: Section, segs: seq<string>, i: nat, j: nat)
    requires i <= j < |segs| && EqualsIgnoreCase(segs[j], segs[|segs| - 1])
    requires forall k :: i <= k < j ==> !EqualsIgnoreCase(segs[k], segs[|segs| - 1])
    requires Follow(s, segs[..i]).Some?
    ensures Walk(Follow(s, segs[..i]), segs, i) ==
      if Follow(s, segs[..j]).Some? then Ok(Follow(s, segs[..j + 1]))
      else if Follow(s, segs[..j - 1]).Some? then Err(NullPointer)
      else Ok(None)
    decreases j - i
  {
    var cur := Follow(s, segs[..i]);
    FollowSnoc(s, segs[..i], segs[i]);
    assert segs[..i] + [segs[i]] == segs[..i + 1];
    if i < j {
      var next := Follow(s, segs[..i + 1]);
      assert next == Lookup(cur.value, segs[i]);
      if next.Some? {
        WalkFrom(s, segs, i + 1, j);
      } else {
        FollowMissing(s, segs, i + 1, j);
        if i + 1 < j {
          FollowMissing(s, segs, i + 1, j - 1);
        }
      }
    } else {
      FollowSnoc(s, segs[..j], segs[j]);
      assert segs[..j] + [segs[j]] == segs[..j + 1];
    }
  }

  /** What getSection(path) returns. Its loop stops at the first segment that equals
      the last one ignoring case, at index j. If the sections named by the segments
      before j all exist, the result is the case-sensitive descent through the
      segments up to and including j. If only the one just before j is missing, the
      loop dereferences null. If one further back is missing, the result is null.
      A path that splits into no segments gives the section itself. */
  lemma SectionAtCharacterized(s: Section, path: string)
    ensures Split(path) == [] ==> SectionAt(s, path) == Ok(Some(s))
    ensures Split(path) != [] ==>
      var segs, j := Split(path), FirstMatch(Split(path));
      SectionAt(s, path) ==
        if Follow(s, segs[..j]).Some? then Ok(Follow(s, segs[..j + 1]))
        else if Follow(s, segs[..j - 1]).Some? then Err(NullPointer)
        else Ok(None)
  {
    var segs := Split(path);
    if segs != [] {
      assert segs[..0] == [];
      WalkFrom(s, segs, 0, FirstMatch(segs));
    }
  }

  /** When the last segment differs, ignoring case, from every earlier one, getSection
      descends one case-sensitive map level per segment: it finds the section at the
      full path, gives null when a segment two or more places before the last is
      missing, and dereferences null when the one just before the last is missing. */
  lemma SectionAtDistinctLast(s: Section, path: string)
    requires |Split(path)| >= 1
    requires forall k :: 0 <= k < |Split(path)| - 1 ==> !EqualsIgnoreCase(Split(path)[k], Split(path)[|Split(path)| - 1])
    ensures var segs, n := Split(path), |Split(path)|;
      SectionAt(s, path) ==
        if Follow(s, segs[..n - 1]).Some? then Ok(Follow(s, segs))
        else if Follow(s, segs[..n - 2]).Some? then Err(NullPointer)
        else Ok(None)
  {
    var segs := Split(path);
    var j := FirstMatch(segs);
    assert j == |segs| - 1;
    assert segs[..j + 1] == segs;
    SectionAtCharacterized(s, path);
  }

  /** A dot-free key is looked up directly in the children map; this is what
      createSection and decodeNodes do when they call getSection(segment). */
  lemma SectionAtSegment(s: Section, seg: string)
    requires '.' !in seg
    ensures SectionAt(s, seg) == Ok(Lookup(s, seg))
  {
    assert Split(seg) == [seg];
  }

  /** Lookup is case-sensitive: with "Core" present and "core" absent, "core" is not found. */
  lemma SectionAtCaseSensitive(s: Section)
    requires Get(s.children, "Core").Some? && Get(s.children, "core").None?
    ensures SectionAt(s, "Core").Ok? && SectionAt(s, "Core").value.Some?
    ensures SectionAt(s, "core") == Ok(None)
  {
    SectionAtSegment(s, "Core");
    SectionAtSegment(s, "core");
  }

  /** equalsIgnoreCase only decides where the walk stops: "a.b.A" returns the
      top-level section "a", whatever lies under "a.b". */
  lemma SectionAtStopsAtFirstMatch(s: Section)
    ensures SectionAt(s, "a.b.A") == Ok(Lookup(s, "a"))
  {
    SplitABA();
    assert EqualsIgnoreCase("a", "A");
  }

  /** The path "a.b.A" has the segments a, b and A. */
  lemma SplitABA()
    ensures Split("a.b.A") == ["a", "b", "A"]
  {
    PiecesAt("a", "b.A");
    PiecesAt("b", "A");
    SinglePiece("A");
    assert "a.b.A" == "a" + "." + "b.A";
    assert "b.A" == "b" + "." + "A";
    assert Pieces("a.b.A") == ["a", "b", "A"];
  }

  lemma {:induction false} NodeWalkAgrees(cursor: Option<Section>, segs: seq<string>, i: nat)
    requires i <= |segs|
    ensures Walk(cursor, segs, i).Ok? && Walk(cursor, segs, i).value.Some? ==>
      NodeWalk(cursor, segs, i) == Ok(Walk(cursor, segs, i).value.value.base)
    ensures Walk(cursor, segs, i).Err? ==> NodeWalk(cursor, segs, i) == Err(NullPointer)
    ensures Walk(cursor, segs, i) == Ok(None) ==>
      NodeWalk(cursor, segs, i) == Ok(None) || NodeWalk(cursor, segs, i) == Err(NullPointer)
    decreases |segs| - i
  {
    if i < |segs| && !EqualsIgnoreCase(segs[i], segs[|segs| - 1]) && cursor.Some? {
      NodeWalkAgrees(Lookup(cursor.value, segs[i]), segs, i + 1);
    }
  }

  /** getNode agrees with getSection: a found section gives its node, an exception
      stays one, and where getSection gives null getNode gives null or dereferences
      the missing final child. */
  lemma NodeAtAgrees(s: Section, path: string)
    ensures SectionAt(s, path).Ok? && SectionAt(s, path).value.Some? ==>
      NodeAt(s, path) == Ok(SectionAt(s, path).value.value.base)
    ensures SectionAt(s, path).Err? ==> NodeAt(s, path) == Err(NullPointer)
    ensures SectionAt(s, path) == Ok(None) ==>
      NodeAt(s, path) == Ok(None) || NodeAt(s, path) == Err(NullPointer)
  {
    NodeWalkAgrees(Some(s), Split(path), 0);
  }

  /** getNode's loop from iteration `i` on, before the stopping segment `j`. Past an
      existing section at j it gives the node of the child there, or dereferences
      null when that child is missing; otherwise it behaves as getSection's loop. */
  lemma {:induction false} NodeWalkFrom(s: Section, segs: seq<string>, i: nat, j: nat)
    requires i <= j < |segs| && EqualsIgnoreCase(segs[j], segs[|segs| - 1])
    requires forall k :: i <= k < j ==> !EqualsIgnoreCase(segs[k], segs[|segs| - 1])
    requires Follow(s, segs[..i]).Some?
    ensures NodeWalk(Follow(s, segs[..i]), segs, i) ==
      if Follow(s, segs[..j]).Some? then
        if Follow(s, segs[..j + 1]).Some? then Ok(Follow(s, segs[..j + 1]).value.base)
        else Err(NullPointer)
      else if Follow(s, segs[..j - 1]).Some? then Err(NullPointer)
      else Ok(None)
    decreases j - i
  {
    var cur := Follow(s, segs[..i]);
    FollowSnoc(s, segs[..i], segs[i]);
    assert segs[..i] + [segs[i]] == segs[..i + 1];
    if i < j {
      var next := Follow(s, segs[..i + 1]);
      assert next == Lookup(cur.value, segs[i]);
      if next.Some? {
        NodeWalkFrom(s, segs, i + 1, j);
      } else {
        FollowMissing(s, segs, i + 1, j);
        if i + 1 < j {
          FollowMissing(s, segs, i + 1, j - 1);
        }
      }
    } else {
      FollowSnoc(s, segs[..j], segs[j]);
      assert segs[..j] + [segs[j]] == segs[..j + 1];
    }
  }

  /** What getNode(path) returns. It stops where getSection stops, at index j. If the
      sections before j all exist, it gives the node of the child at j, and
      dereferences null when that child is missing. If only the section just before
      j is missing, it dereferences null. If one further back is missing, the result
      is null. A path that splits into no segments gives this section's own node. */
  lemma NodeAtCharacterized(s: Section, path: string)
    ensures Split(path) == [] ==> NodeAt(s, path) == Ok(s.base)
    ensures Split(path) != [] ==>
      var segs, j := Split(path), FirstMatch(Split(path));
      NodeAt(s, path) ==
        if Follow(s, segs[..j]).Some? then
          if Follow(s, segs[..j + 1]).Some? then Ok(Follow(s, segs[..j + 1]).value.base)
          else Err(NullPointer)
        else if Follow(s, segs[..j - 1]).Some? then Err(NullPointer)
        else Ok(None)
  {
    var segs := Split(path);
    if segs != [] {
      assert segs[..0] == [];
      NodeWalkFrom(s, segs, 0, FirstMatch(segs));
    }
  }

  // ---------------------------------------------------------------------------
  // Flattening: getNodeValues

  /** getNodeValues: for each child in insertion order, its node and then,
      recursively, the nodes below it. */
  function Flatten(cs: seq<Child>): seq<Node>
  {
    if cs == [] then []
    else Flatten(cs[..|cs| - 1]) + [cs[|cs| - 1].node] + Flatten(cs[|cs| - 1].children)
  }

  /** The number of sections below: each child counts once, with everything under it. */
  function Count(cs: seq<Child>): nat
  {
    if cs == [] then 0 else Count(cs[..|cs| - 1]) + 1 + Count(cs[|cs| - 1].children)
  }

  lemma {:induction false} FlattenLength(cs: seq<Child>)
    ensures |Flatten(cs)| == Count(cs)
  {
    if cs != [] {
      FlattenLength(cs[..|cs| - 1]);
      FlattenLength(cs[|cs| - 1].children);
    }
  }

  lemma {:induction false} FlattenAppend(a: seq<Child>, b: seq<Child>)
    ensures Flatten(a + b) == Flatten(a) + Flatten(b)
    decreases |b|
  {
    if b == [] {
      assert a + b == a;
    } else {
      AppendInit(a, b);
      FlattenAppend(a, b[..|b| - 1]);
    }
  }

  /** Pre-order: the nodes of the children before child i come first, then child i's
      own node, then all of its descendants, then the nodes of the later children. */
  lemma FlattenAt(cs: seq<Child>, i: nat)
    requires i < |cs|
    ensures Flatten(cs) == Flatten(cs[..i]) + [cs[i].node] + Flatten(cs[i].children) + Flatten(cs[i + 1..])
  {
    var a, b := cs[..i + 1], cs[i + 1..];
    CutAfter(cs, i);
    FlattenAppend(a, b);
  }

  /** A non-empty sequence is its front followed by its last element. */
  lemma InitLast<T>(xs: seq<T>)
    requires xs != []
    ensures xs == xs[..|xs| - 1] + [xs[|xs| - 1]]
  {
  }

  /** The front and last element of a concatenation whose second part is not empty. */
  lemma AppendInit<T>(a: seq<T>, b: seq<T>)
    requires b != []
    ensures (a + b)[..|a + b| - 1] == a + b[..|b| - 1] && (a + b)[|a + b| - 1] == b[|b| - 1]
  {
  }

  /** A sequence is its elements up to and including index i, then the rest. */
  lemma CutAfter<T>(xs: seq<T>, i: nat)
    requires i < |xs|
    ensures xs == xs[..i + 1] + xs[i + 1..]
    ensures xs[..i + 1][..i] == xs[..i] && xs[..i + 1][i] == xs[i] && |xs[..i + 1]| == i + 1
  {
  }

  // ---------------------------------------------------------------------------
  // Key listing: getKeys

  /** The key getKeys derives from one node: the node's path with every occurrence of
      the section's own path and a dot removed (the whole path when the section owns
      no node), cut to its first segment unless `deep`; a key that splits into no
      segments at all is an index out of bounds. */
  function KeyOf(base: Option<Node>, n: Node, deep: bool): Result<string>
  {
    var keyStr := if base.None? then n.path else RemoveAll(n.path, base.value.path + ".");
    if deep then Ok(keyStr)
    else
      var parts := Split(keyStr);
      if |parts| == 0 then Err(IndexOutOfBounds) else Ok(parts[0])
  }

  /** The keys of `nodes` in order, or the exception the first failing one raises. */
  function KeyStrings(base: Option<Node>, nodes: seq<Node>, deep: bool): Result<seq<string>>
  {
    if nodes == [] then Ok([])
    else match KeyStrings(base, nodes[..|nodes| - 1], deep)
      case Err(e) => Err(e)
      case Ok(ks) =>
        match KeyOf(base, nodes[|nodes| - 1], deep)
        case Err(e) => Err(e)
        case Ok(k) => Ok(ks + [k])
  }

  /** A LinkedHashSet filled by add-if-absent: each value once, in first-seen order. */
  function Dedup(xs: seq<string>): (r: seq<string>)
    ensures NoDup(r)
    ensures forall x :: x in r <==> x in xs
  {
    if xs == [] then []
    else
      var d := Dedup(xs[..|xs| - 1]);
      if xs[|xs| - 1] in d then d else d + [xs[|xs| - 1]]
  }

  /** One more key is added to the set when it is new. */
  lemma DedupSnoc(xs: seq<string>, x: string)
    ensures Dedup(xs + [x]) == if x in xs then Dedup(xs) else Dedup(xs) + [x]
  {
    assert (xs + [x])[..|xs|] == xs;
  }

  /** The keys of the first i + 1 nodes: those of the first i, then the key of node i. */
  lemma KeyStringsNext(base: Option<Node>, nodes: seq<Node>, i: nat, deep: bool)
    requires i < |nodes|
    ensures KeyStrings(base, nodes[..i + 1], deep) ==
      match KeyStrings(base, nodes[..i], deep)
      case Err(e) => Err(e)
      case Ok(ks) => (match KeyOf(base, nodes[i], deep) case Err(e) => Err(e) case Ok(k) => Ok(ks + [k]))
  {
    assert nodes[..i + 1][..i] == nodes[..i];
  }

  /** getKeys(deep). */
  function KeySet(s: Section, deep: bool): Result<seq<string>>
  {
    match KeyStrings(s.base, Flatten(s.children), deep)
    case Err(e) => Err(e)
    case Ok(ks) => Ok(Dedup(ks))
  }

  /** Index of the first occurrence of `x`. */
  function FirstIndex(xs: seq<string>, x: string): (i: nat)
    requires x in xs
    ensures i < |xs| && xs[i] == x && x !in xs[..i]
  {
    if xs[0] == x then 0
    else
      var i := 1 + FirstIndex(xs[1..], x);
      assert xs[..i] == [xs[0]] + xs[1..][..i - 1];
      i
  }

  lemma {:induction false} FirstIndexAt(xs: seq<string>, x: string, k: nat)
    requires k < |xs| && xs[k] == x && x !in xs[..k]
    ensures FirstIndex(xs, x) == k
  {
    if k > 0 {
      assert xs[..k][0] == xs[0];
      assert xs[1..][..k - 1] == xs[..k][1..];
      FirstIndexAt(xs[1..], x, k - 1);
    }
  }

  lemma FirstIndexSnoc(xs: seq<string>, y: string, x: string)
    requires x in xs
    ensures FirstIndex(xs + [y], x) == FirstIndex(xs, x)
  {
    var i := FirstIndex(xs, x);
    assert (xs + [y])[..i] == xs[..i];
    FirstIndexAt(xs + [y], x, i);
  }

  /** The set keeps first-seen order: an earlier key was first seen earlier. */
  lemma {:induction false} DedupFirstSeenOrder(xs: seq<string>)
    ensures forall i, j :: 0 <= i < j < |Dedup(xs)| ==>
      FirstIndex(xs, Dedup(xs)[i]) < FirstIndex(xs, Dedup(xs)[j])
  {
    if xs != [] {
      var init, last := xs[..|xs| - 1], xs[|xs| - 1];
      InitLast(xs);
      DedupFirstSeenOrder(init);
      DedupSnoc(init, last);
      var d, e := Dedup(init), Dedup(xs);
      forall i, j | 0 <= i < j < |e|
        ensures FirstIndex(xs, e[i]) < FirstIndex(xs, e[j])
      {
        assert e[i] == d[i] && d[i] in init;
        FirstIndexSnoc(init, last, e[i]);
        if j < |d| {
          assert e[j] == d[j] && d[j] in init;
          FirstIndexSnoc(init, last, e[j]);
        } else {
          assert e[j] == last && last !in init;
          FirstIndexAt(xs, last, |init|);
        }
      }
    }
  }

  /** Without repeats the set is the list itself. */
  lemma {:induction false} DedupOfDistinct(xs: seq<string>)
    requires NoDup(xs)
    ensures Dedup(xs) == xs
  {
    if xs != [] {
      var init := xs[..|xs| - 1];
      DedupOfDistinct(init);
      assert xs[|xs| - 1] !in init;
      assert init + [xs[|xs| - 1]] == xs;
    }
  }

  /** getKeys lists each key once, in the order it was first met in getNodeValues. */
  lemma KeySetDistinctInFirstSeenOrder(s: Section, deep: bool)
    requires KeySet(s, deep).Ok?
    ensures NoDup(KeySet(s, deep).value)
    ensures var ks := KeyStrings(s.base, Flatten(s.children), deep).value;
      (forall k :: k in KeySet(s, deep).value <==> k in ks) &&
      forall i, j :: 0 <= i < j < |KeySet(s, deep).value| ==>
        FirstIndex(ks, KeySet(s, deep).value[i]) < FirstIndex(ks, KeySet(s, deep).value[j])
  {
    DedupFirstSeenOrder(KeyStrings(s.base, Flatten(s.children), deep).value);
  }

  lemma {:induction false} ShallowKeyStringsHaveNoDot(base: Option<Node>, nodes: seq<Node>)
    requires KeyStrings(base, nodes, false).Ok?
    ensures forall k :: k in KeyStrings(base, nodes, false).value ==> '.' !in k
  {
    if nodes != [] {
      ShallowKeyStringsHaveNoDot(base, nodes[..|nodes| - 1]);
    }
  }

  /** A shallow key is a single segment: it holds no dot. */
  lemma ShallowKeysHaveNoDot(s: Section)
    requires KeySet(s, false).Ok?
    ensures forall k :: k in KeySet(s, false).value ==> '.' !in k
  {
    ShallowKeyStringsHaveNoDot(s.base, Flatten(s.children));
  }

  function Paths(nodes: seq<Node>): seq<string>
  {
    if nodes == [] then [] else Paths(nodes[..|nodes| - 1]) + [nodes[|nodes| - 1].path]
  }

  lemma {:induction false} RootDeepKeyStrings(nodes: seq<Node>)
    ensures KeyStrings(None, nodes, true) == Ok(Paths(nodes))
  {
    if nodes != [] {
      RootDeepKeyStrings(nodes[..|nodes| - 1]);
    }
  }

  /** On a section that owns no node, the deep keys are the full paths of
      getNodeValues, each once; exactly those paths when they are distinct. */
  lemma RootDeepKeysArePaths(s: Section)
    requires s.base.None?
    ensures KeySet(s, true) == Ok(Dedup(Paths(Flatten(s.children))))
    ensures NoDup(Paths(Flatten(s.children))) ==> KeySet(s, true) == Ok(Paths(Flatten(s.children)))
  {
    RootDeepKeyStrings(Flatten(s.children));
    if NoDup(Paths(Flatten(s.children))) {
      DedupOfDistinct(Paths(Flatten(s.children)));
    }
  }

  // ---------------------------------------------------------------------------
  // Attaching a section: createSection (and each step of decodeNodes)

  /** Puts `c` under its key into the section reached from `cs` by calling
      getSection(segment) once per segment of `walk`; a missing section on the way
      leaves a null parent, which the next call or the final put dereferences. */
  function AttachAt(cs: seq<Child>, walk: seq<string>, c: Child): Result<seq<Child>>
  {
    if walk == [] then Ok(Put(cs, c))
    else match Get(cs, walk[0])
      case None => Err(NullPointer)
      case Some(p) =>
        match AttachAt(p.children, walk[1..], c)
        case Err(e) => Err(e)
        case Ok(pcs) => Ok(Put(cs, p.(children := pcs)))
  }

  /** createSection(section) on a section whose children are `cs`: a path of one
      segment (or none) is put under the whole path here; a longer path goes under
      its last segment in the parent reached through the others. A section without
      a node is a null pointer. */
  function CreateIn(cs: seq<Child>, section: Section): Result<seq<Child>>
  {
    match section.base
    case None => Err(NullPointer)
    case Some(n) =>
      var split := Split(n.path);
      if |split| > 1 then AttachAt(cs, split[..|split| - 1], Child(split[|split| - 1], n, section.children))
      else Ok(Put(cs, Child(n.path, n, section.children)))
  }

  /** Attaching succeeds exactly when the parent exists; the parent then holds `c`
      under its key, put there as LinkedHashMap.put does, and the top-level map keeps
      its key order, every entry but the one walked through being unchanged. */
  lemma {:induction false} AttachAtFollow(b: Option<Node>, cs: seq<Child>, walk: seq<string>, c: Child)
    ensures AttachAt(cs, walk, c).Ok? <==> Follow(Section(b, cs), walk).Some?
    ensures AttachAt(cs, walk, c).Err? ==> AttachAt(cs, walk, c).error == NullPointer
    ensures AttachAt(cs, walk, c).Ok? ==>
      var parent := Follow(Section(b, cs), walk).value;
      Follow(Section(b, AttachAt(cs, walk, c).value), walk) == Some(parent.(children := Put(parent.children, c)))
    ensures AttachAt(cs, walk, c).Ok? && walk != [] ==>
      KeysOf(AttachAt(cs, walk, c).value) == KeysOf(cs) &&
      forall k :: k != walk[0] ==> Get(AttachAt(cs, walk, c).value, k) == Get(cs, k)
    decreases walk
  {
    if walk != [] {
      match Get(cs, walk[0])
      case None =>
      case Some(p) =>
        AttachAtFollow(Some(p.node), p.children, walk[1..], c);
    }
  }

  /** createSection: with a path of more than one segment it succeeds exactly when
      the parent named by the earlier segments exists, and the parent then holds the
      section under the last segment, put there as LinkedHashMap.put does, while the
      top-level map keeps its keys and every entry other than the first segment's;
      with one segment (or none) the section is put here under the whole path. */
  lemma CreateInOutcome(b: Option<Node>, cs: seq<Child>, n: Node, sub: seq<Child>)
    ensures var segs := Split(n.path);
      |segs| > 1 ==>
        var walk, c := segs[..|segs| - 1], Child(segs[|segs| - 1], n, sub);
        (CreateIn(cs, Section(Some(n), sub)).Ok? <==> Follow(Section(b, cs), walk).Some?) &&
        (CreateIn(cs, Section(Some(n), sub)).Ok? ==>
          var r, parent := CreateIn(cs, Section(Some(n), sub)).value, Follow(Section(b, cs), walk).value;
          Follow(Section(b, r), walk) == Some(parent.(children := Put(parent.children, c))) &&
          KeysOf(r) == KeysOf(cs) &&
          forall k :: k != segs[0] ==> Get(r, k) == Get(cs, k))
    ensures |Split(n.path)| <= 1 ==> CreateIn(cs, Section(Some(n), sub)) == Ok(Put(cs, Child(n.path, n, sub)))
  {
    var segs := Split(n.path);
    if |segs| > 1 {
      var walk := segs[..|segs| - 1];
      AttachAtFollow(b, cs, walk, Child(segs[|segs| - 1], n, sub));
      assert walk[0] == segs[0];
    }
  }

  /** A section created at a well-formed path is found again at that path. */
  lemma CreateThenFollow(b: Option<Node>, cs: seq<Child>, n: Node, sub: seq<Child>)
    requires WellFormedPath(n.path)
    requires CreateIn(cs, Section(Some(n), sub)).Ok?
    ensures Follow(Section(b, CreateIn(cs, Section(Some(n), sub)).value), Split(n.path)) == Some(Section(Some(n), sub))
  {
    var segs := Split(n.path);
    var r := CreateIn(cs, Section(Some(n), sub)).value;
    SplitWellFormed(n.path);
    if |segs| > 1 {
      var walk, last := segs[..|segs| - 1], segs[|segs| - 1];
      InitLast(segs);
      AttachAtFollow(b, cs, walk, Child(last, n, sub));
      FollowSnoc(Section(b, r), walk, last);
    } else {
      assert n.path == segs[0];
      assert Follow(Section(b, r), segs) == match Lookup(Section(b, r), n.path) case None => None case Some(t) => Follow(t, []);
    }
  }

  /** When the last segment of a well-formed path differs, ignoring case, from the
      earlier ones, getSection returns the section just created there. */
  lemma CreateThenFind(b: Option<Node>, cs: seq<Child>, n: Node, sub: seq<Child>)
    requires WellFormedPath(n.path)
    requires CreateIn(cs, Section(Some(n), sub)).Ok?
    requires forall k :: 0 <= k < |Split(n.path)| - 1 ==> !EqualsIgnoreCase(Split(n.path)[k], Split(n.path)[|Split(n.path)| - 1])
    ensures SectionAt(Section(b, CreateIn(cs, Section(Some(n), sub)).value), n.path) == Ok(Some(Section(Some(n), sub)))
  {
    var segs := Split(n.path);
    var s := Section(b, CreateIn(cs, Section(Some(n), sub)).value);
    SplitWellFormed(n.path);
    CreateThenFollow(b, cs, n, sub);
    var walk, last := segs[..|segs| - 1], segs[|segs| - 1];
    InitLast(segs);
    FollowSnoc(s, walk, last);
    SectionAtDistinctLast(s, n.path);
  }
}
