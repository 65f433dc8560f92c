/** Building the tree with decodeNodes and reading it back with getNodeValues. A tree
    in which every section sits where its node's path says it should comes back
    from its own pre-order listing unchanged; and a node list with distinct
    well-formed paths, each path's parent listed before it, is decoded without an
    exception into such a tree, whose listing holds exactly the input nodes. */
module RoundTrip {
  import opened JavaLang
  import opened ConfigTree
  import opened Sections
  import opened Configuration

  /** Children as decodeNodes arranges them under the section whose path has the
      segments `prefix`: distinct keys, and every child's node has a well-formed
      path whose segments are the prefix and the child's key, all the way down. */
  predicate Placed(cs: seq<Child>, prefix: seq<string>)
  {
    NoDup(KeysOf(cs)) &&
    forall c :: c in cs ==>
      WellFormedPath(c.node.path) && Split(c.node.path) == prefix + [c.key] &&
      Placed(c.children, prefix + [c.key])
  }

  /** The tree `cs` with the children of the section reached through `walk`
      replaced by `x`. */
  function SetChildrenAt(cs: seq<Child>, walk: seq<string>, x: seq<Child>): seq<Child>
    decreases walk
  {
    if walk == [] then x
    else match Get(cs, walk[0])
      case None => cs
      case Some(p) => Put(cs, p.(children := SetChildrenAt(p.children, walk[1..], x)))
  }

  // ---------------------------------------------------------------------------
  // The children map

  lemma {:induction false} KeysOfAppend(a: seq<Child>, b: seq<Child>)
    ensures KeysOf(a + b) == KeysOf(a) + KeysOf(b)
  {
    if a != [] {
      assert (a + b)[0] == a[0] && (a + b)[1..] == a[1..] + b;
      KeysOfAppend(a[1..], b);
    } else {
      assert a + b == b;
    }
  }

  lemma {:induction false} PutFresh(cs: seq<Child>, c: Child)
    requires c.key !in KeysOf(cs)
    ensures Put(cs, c) == cs + [c]
  {
    if cs != [] {
      PutFresh(cs[1..], c);
      ConsSnoc(cs, c);
    }
  }

  /** A non-empty sequence with one more element is its head before the rest. */
  lemma ConsSnoc<T>(xs: seq<T>, y: T)
    requires xs != []
    ensures xs + [y] == [xs[0]] + (xs[1..] + [y])
  {
  }

  lemma {:induction false} PutSame(cs: seq<Child>, c: Child)
    requires Get(cs, c.key) == Some(c)
    ensures Put(cs, c) == cs
  {
    if cs != [] && cs[0].key != c.key {
      PutSame(cs[1..], c);
      assert cs == [cs[0]] + cs[1..];
    }
  }

  /** Putting a key that only the last entry has replaces that entry. */
  lemma {:induction false} PutLast(cs: seq<Child>, c: Child, d: Child)
    requires c.key !in KeysOf(cs) && d.key == c.key
    ensures Put(cs + [c], d) == cs + [d]
  {
    if cs == [] {
      assert cs + [c] == [c] && [c][1..] == [];
      assert cs + [d] == [d];
    } else {
      PutLast(cs[1..], c, d);
      ConsSnoc(cs, c);
      ConsSnoc(cs, d);
      PutCons(cs[0], cs[1..] + [c], d);
    }
  }

  lemma PutCons(h: Child, t: seq<Child>, d: Child)
    requires h.key != d.key
    ensures Put([h] + t, d) == [h] + Put(t, d)
  {
    assert ([h] + t)[0] == h && ([h] + t)[1..] == t;
  }

  /** Where the keys are distinct, get finds every entry under its own key. */
  lemma {:induction false} GetUnique(cs: seq<Child>, c: Child)
    requires NoDup(KeysOf(cs)) && c in cs
    ensures Get(cs, c.key) == Some(c)
  {
    if cs[0] != c {
      assert KeysOf(cs)[0] == cs[0].key;
      var i :| 0 <= i < |cs| && cs[i] == c;
      assert i > 0;
      assert KeysOf(cs[1..]) == KeysOf(cs)[1..];
      KeysOfIndex(cs, i);
      GetUnique(cs[1..], c);
    }
  }

  lemma {:induction false} KeysOfIndex(cs: seq<Child>, i: nat)
    requires i < |cs|
    ensures |KeysOf(cs)| == |cs| && KeysOf(cs)[i] == cs[i].key
  {
    if i > 0 {
      KeysOfIndex(cs[1..], i - 1);
    } else {
      KeysOfLength(cs);
    }
  }

  lemma {:induction false} KeysOfLength(cs: seq<Child>)
    ensures |KeysOf(cs)| == |cs|
  {
    if cs != [] {
      KeysOfLength(cs[1..]);
    }
  }

  /** Every entry of a put map is the new one or one that was there. */
  lemma {:induction false} PutElements(cs: seq<Child>, c: Child)
    ensures forall x :: x in Put(cs, c) ==> x == c || x in cs
  {
    if cs != [] && cs[0].key != c.key {
      PutElements(cs[1..], c);
    }
  }

  // ---------------------------------------------------------------------------
  // Replacing the children of the section at a path

  /** createSection's walk-and-put, where the parent exists, replaces the parent's
      children by the put map. */
  lemma {:induction false} AttachIsSet(b: Option<Node>, cs: seq<Child>, walk: seq<string>, c: Child)
    requires Follow(Section(b, cs), walk).Some?
    ensures AttachAt(cs, walk, c) == Ok(SetChildrenAt(cs, walk, Put(Follow(Section(b, cs), walk).value.children, c)))
    decreases walk
  {
    if walk != [] {
      var p := Get(cs, walk[0]).value;
      AttachIsSet(Some(p.node), p.children, walk[1..], c);
    }
  }

  lemma {:induction false} FollowSet(b: Option<Node>, cs: seq<Child>, walk: seq<string>, x: seq<Child>)
    requires Follow(Section(b, cs), walk).Some?
    ensures Follow(Section(b, SetChildrenAt(cs, walk, x)), walk) == Some(Follow(Section(b, cs), walk).value.(children := x))
    decreases walk
  {
    if walk != [] {
      var p := Get(cs, walk[0]).value;
      FollowSet(Some(p.node), p.children, walk[1..], x);
    }
  }

  lemma {:induction false} SetSet(b: Option<Node>, cs: seq<Child>, walk: seq<string>, x: seq<Child>, y: seq<Child>)
    requires Follow(Section(b, cs), walk).Some?
    ensures SetChildrenAt(SetChildrenAt(cs, walk, x), walk, y) == SetChildrenAt(cs, walk, y)
    decreases walk
  {
    if walk != [] {
      var p := Get(cs, walk[0]).value;
      SetSet(Some(p.node), p.children, walk[1..], x, y);
      var p' := p.(children := SetChildrenAt(p.children, walk[1..], x));
      var cs' := Put(cs, p');
      assert Get(cs', walk[0]) == Some(p');
      assert forall k :: k != walk[0] ==> Get(Put(cs', p'.(children := SetChildrenAt(p'.children, walk[1..], y))), k) == Get(cs, k);
      PutTwice(cs, p', p.(children := SetChildrenAt(p.children, walk[1..], y)));
    }
  }

  /** A second put under the same key overrides the first. */
  lemma {:induction false} PutTwice(cs: seq<Child>, c: Child, d: Child)
    requires d.key == c.key
    ensures Put(Put(cs, c), d) == Put(cs, d)
  {
    if cs != [] && cs[0].key != c.key {
      PutTwice(cs[1..], c, d);
      assert Put(cs, c)[0] == cs[0] && Put(cs, c)[1..] == Put(cs[1..], c);
    }
  }

  lemma {:induction false} SetSame(b: Option<Node>, cs: seq<Child>, walk: seq<string>)
    requires Follow(Section(b, cs), walk).Some?
    ensures SetChildrenAt(cs, walk, Follow(Section(b, cs), walk).value.children) == cs
    decreases walk
  {
    if walk != [] {
      var p := Get(cs, walk[0]).value;
      SetSame(Some(p.node), p.children, walk[1..]);
      assert p.(children := p.children) == p;
      PutSame(cs, p);
    }
  }

  /** Replacing the children of a child of the section at `walk` is replacing that
      child in the section's own children. */
  lemma {:induction false} SetExtend(b: Option<Node>, cs: seq<Child>, walk: seq<string>, k: string, x: seq<Child>)
    requires Follow(Section(b, cs), walk).Some?
    requires Get(Follow(Section(b, cs), walk).value.children, k).Some?
    ensures var parent := Follow(Section(b, cs), walk).value;
      SetChildrenAt(cs, walk + [k], x) ==
        SetChildrenAt(cs, walk, Put(parent.children, Get(parent.children, k).value.(children := x)))
    decreases walk
  {
    var w := walk + [k];
    if walk == [] {
      assert w == [k] && w[1..] == [];
    } else {
      assert w[0] == walk[0] && w[1..] == walk[1..] + [k];
      var p := Get(cs, walk[0]).value;
      SetExtend(Some(p.node), p.children, walk[1..], k, x);
    }
  }

  // ---------------------------------------------------------------------------
  // A placed tree comes back from its own listing

  /** Attaching a node whose key is new under an existing parent appends a childless
      section to the parent's children. */
  lemma AttachLeaf(cs: seq<Child>, walk: seq<string>, n: Node, key: string)
    requires WellFormedPath(n.path) && Split(n.path) == walk + [key]
    requires Follow(Section(None, cs), walk).Some?
    requires key !in KeysOf(Follow(Section(None, cs), walk).value.children)
    ensures CreateIn(cs, Section(Some(n), [])) ==
      Ok(SetChildrenAt(cs, walk, Follow(Section(None, cs), walk).value.children + [Child(key, n, [])]))
  {
    var segs := Split(n.path);
    var parent := Follow(Section(None, cs), walk).value;
    var c := Child(key, n, []);
    SplitWellFormed(n.path);
    PutFresh(parent.children, c);
    if walk == [] {
      assert segs == [key];
      assert n.path == key;
    } else {
      assert segs[..|segs| - 1] == walk && segs[|segs| - 1] == key;
      AttachIsSet(None, cs, walk, c);
    }
  }

  /** Splitting the last child off a list of children with distinct keys. */
  lemma SplitLast(pre: seq<Child>, ds: seq<Child>)
    requires ds != [] && NoDup(KeysOf(pre + ds))
    ensures pre + ds == pre + ds[..|ds| - 1] + [ds[|ds| - 1]]
    ensures NoDup(KeysOf(pre + ds[..|ds| - 1]))
    ensures ds[|ds| - 1].key !in KeysOf(pre + ds[..|ds| - 1])
  {
    var init, last := ds[..|ds| - 1], ds[|ds| - 1];
    assert ds == init + [last];
    assert pre + ds == (pre + init) + [last];
    KeysSnoc(pre + init, last);
    NoDupSnoc(KeysOf(pre + init), last.key);
  }

  lemma KeysSnoc(cs: seq<Child>, c: Child)
    ensures KeysOf(cs + [c]) == KeysOf(cs) + [c.key]
  {
    KeysOfAppend(cs, [c]);
    assert [c][1..] == [];
  }

  lemma NoDupSnoc<T>(xs: seq<T>, x: T)
    ensures NoDup(xs + [x]) <==> NoDup(xs) && x !in xs
  {
    var ys := xs + [x];
    assert forall i :: 0 <= i < |xs| ==> ys[i] == xs[i];
    if NoDup(ys) {
      forall i | 0 <= i < |xs|
        ensures xs[i] != x
      {
        assert ys[i] != ys[|xs|];
      }
    }
  }

  /** Decoding a placed child's node into the tree whose section at `walk` has
      children `q` appends it there childless; the new section is then reached
      through its key. */
  lemma LeafStep(cs: seq<Child>, walk: seq<string>, q: seq<Child>, last: Child)
    requires Follow(Section(None, cs), walk).Some?
    requires WellFormedPath(last.node.path) && Split(last.node.path) == walk + [last.key]
    requires NoDup(KeysOf(q)) && last.key !in KeysOf(q)
    ensures var c := Child(last.key, last.node, []);
      var after := SetChildrenAt(cs, walk, q + [c]);
      && Decode(SetChildrenAt(cs, walk, q), [last.node] + Flatten(last.children)) == Decode(after, Flatten(last.children))
      && Follow(Section(None, after), walk + [last.key]).Some?
      && Follow(Section(None, after), walk + [last.key]).value.children == []
  {
    var cs1 := SetChildrenAt(cs, walk, q);
    var parent := Follow(Section(None, cs), walk).value;
    FollowSet(None, cs, walk, q);
    var c := Child(last.key, last.node, []);
    AttachLeaf(cs1, walk, last.node, last.key);
    var after := SetChildrenAt(cs, walk, q + [c]);
    SetSet(None, cs, walk, q, q + [c]);
    var rest := Flatten(last.children);
    assert ([last.node] + rest)[0] == last.node && ([last.node] + rest)[1..] == rest;
    FollowSet(None, cs, walk, q + [c]);
    KeysOfAppend(q, [c]);
    GetUnique(q + [c], c);
    FollowSnoc(Section(None, after), walk, last.key);
  }

  /** Then giving the new section the children of `last` puts `last` itself there. */
  lemma CloseStep(cs: seq<Child>, walk: seq<string>, q: seq<Child>, last: Child)
    requires Follow(Section(None, cs), walk).Some?
    requires NoDup(KeysOf(q)) && last.key !in KeysOf(q)
    ensures var after := SetChildrenAt(cs, walk, q + [Child(last.key, last.node, [])]);
      SetChildrenAt(after, walk + [last.key], last.children) == SetChildrenAt(cs, walk, q + [last])
  {
    var c := Child(last.key, last.node, []);
    var after := SetChildrenAt(cs, walk, q + [c]);
    FollowSet(None, cs, walk, q + [c]);
    KeysOfAppend(q, [c]);
    GetUnique(q + [c], c);
    SetExtend(None, after, walk, last.key, last.children);
    assert c.(children := last.children) == last;
    PutLast(q, c, last);
    SetSet(None, cs, walk, q + [c], q + [last]);
  }

  /** The parts of a placed list: its front is placed, its last child is placed one
      level down, and the listing is the front's, then the last node, then what is
      below it. */
  lemma PlacedParts(ds: seq<Child>, walk: seq<string>)
    requires ds != [] && Placed(ds, walk)
    ensures var init, last := ds[..|ds| - 1], ds[|ds| - 1];
      && Placed(init, walk)
      && WellFormedPath(last.node.path) && Split(last.node.path) == walk + [last.key]
      && Placed(last.children, walk + [last.key])
      && Flatten(ds) == Flatten(init) + ([last.node] + Flatten(last.children))
      && Count(init) < Count(ds) && Count(last.children) < Count(ds)
  {
    PlacedLast(ds, walk);
    PlacedFront(ds, walk);
    LastParts(ds);
  }

  lemma PlacedLast(ds: seq<Child>, walk: seq<string>)
    requires ds != [] && Placed(ds, walk)
    ensures var last := ds[|ds| - 1];
      && WellFormedPath(last.node.path) && Split(last.node.path) == walk + [last.key]
      && Placed(last.children, walk + [last.key])
  {
    assert ds[|ds| - 1] in ds;
  }

  lemma LastParts(ds: seq<Child>)
    requires ds != []
    ensures var init, last := ds[..|ds| - 1], ds[|ds| - 1];
      && Flatten(ds) == Flatten(init) + ([last.node] + Flatten(last.children))
      && Count(init) < Count(ds) && Count(last.children) < Count(ds)
  {
    var init, last := ds[..|ds| - 1], ds[|ds| - 1];
    Assoc(Flatten(init), [last.node], Flatten(last.children));
  }

  lemma Assoc<T>(a: seq<T>, b: seq<T>, c: seq<T>)
    ensures (a + b) + c == a + (b + c)
  {
  }

  lemma PlacedFront(ds: seq<Child>, walk: seq<string>)
    requires ds != [] && Placed(ds, walk)
    ensures Placed(ds[..|ds| - 1], walk)
  {
    var init, last := ds[..|ds| - 1], ds[|ds| - 1];
    assert ds == init + [last];
    KeysSnoc(init, last);
    NoDupSnoc(KeysOf(init), last.key);
    assert forall c :: c in init ==> c in ds;
  }

  /** Decoding the listing of `ds` into the section at `walk`, whose children are
      `pre`, appends `ds` there. */
  lemma {:induction false} DecodeInto(cs: seq<Child>, walk: seq<string>, pre: seq<Child>, ds: seq<Child>)
    requires Follow(Section(None, cs), walk).Some? && Follow(Section(None, cs), walk).value.children == pre
    requires Placed(ds, walk)
    requires NoDup(KeysOf(pre + ds))
    ensures Decode(cs, Flatten(ds)) == Decoded(SetChildrenAt(cs, walk, pre + ds), None)
    decreases Count(ds)
  {
    if ds == [] {
      assert pre + ds == pre;
      SetSame(None, cs, walk);
    } else {
      var init, last := ds[..|ds| - 1], ds[|ds| - 1];
      SplitLast(pre, ds);
      PlacedParts(ds, walk);
      var q := pre + init;
      DecodeInto(cs, walk, pre, init);
      var rest := Flatten(last.children);
      DecodeAppend(cs, Flatten(init), [last.node] + rest);
      LeafStep(cs, walk, q, last);
      var after := SetChildrenAt(cs, walk, q + [Child(last.key, last.node, [])]);
      assert [] + last.children == last.children;
      DecodeInto(after, walk + [last.key], [], last.children);
      CloseStep(cs, walk, q, last);
    }
  }

  /** getNodeValues after decodeNodes on its own listing gives back a placed tree:
      decoding the pre-order listing of a placed tree into an empty root raises
      nothing and rebuilds the tree exactly. */
  lemma DecodeFlatten(cs: seq<Child>)
    requires Placed(cs, [])
    ensures Decode([], Flatten(cs)) == Decoded(cs, None)
  {
    assert [] + cs == cs;
    DecodeInto([], [], [], cs);
  }

  /** Hence a node list that is the listing of a placed tree is listed back
      exactly after decoding. */
  lemma ListingRoundTrip(cs: seq<Child>)
    requires Placed(cs, [])
    ensures Decode([], Flatten(cs)).error.None?
    ensures Flatten(Decode([], Flatten(cs)).children) == Flatten(cs)
  {
    DecodeFlatten(cs);
  }

  // ---------------------------------------------------------------------------
  // Listings below a path

  lemma FlattenSingle(c: Child)
    ensures Flatten([c]) == [c.node] + Flatten(c.children)
  {
    assert [c][..0] == [];
  }

  /** The listing of a map that starts with `head`. */
  lemma FlattenCons(head: Child, tail: seq<Child>)
    ensures multiset(Flatten([head] + tail)) ==
      multiset{head.node} + multiset(Flatten(head.children)) + multiset(Flatten(tail))
  {
    FlattenAppend([head], tail);
    FlattenSingle(head);
  }

  /** Replacing the entry under a present key by one with the same node changes the
      listing only below that entry. */
  lemma {:induction false} FlattenPut(cs: seq<Child>, c: Child)
    requires Get(cs, c.key).Some? && Get(cs, c.key).value.node == c.node
    ensures multiset(Flatten(Put(cs, c))) + multiset(Flatten(Get(cs, c.key).value.children)) ==
      multiset(Flatten(cs)) + multiset(Flatten(c.children))
  {
    var head, tail := cs[0], cs[1..];
    assert cs == [head] + tail;
    if head.key == c.key {
      assert Put(cs, c) == [c] + tail && Get(cs, c.key) == Some(head);
      SwapHead(head, c, tail);
    } else {
      assert Put(cs, c) == [head] + Put(tail, c);
      assert Get(cs, c.key) == Get(tail, c.key);
      FlattenPut(tail, c);
      KeepHead(head, tail, Put(tail, c), Get(tail, c.key).value.children, c.children);
    }
  }

  lemma SwapHead(head: Child, c: Child, tail: seq<Child>)
    requires head.node == c.node
    ensures multiset(Flatten([c] + tail)) + multiset(Flatten(head.children)) ==
      multiset(Flatten([head] + tail)) + multiset(Flatten(c.children))
  {
    FlattenCons(head, tail);
    FlattenCons(c, tail);
  }

  lemma KeepHead(head: Child, tail: seq<Child>, tail': seq<Child>, x: seq<Child>, y: seq<Child>)
    requires multiset(Flatten(tail')) + multiset(Flatten(x)) == multiset(Flatten(tail)) + multiset(Flatten(y))
    ensures multiset(Flatten([head] + tail')) + multiset(Flatten(x)) ==
      multiset(Flatten([head] + tail)) + multiset(Flatten(y))
  {
    FlattenCons(head, tail);
    FlattenCons(head, tail');
    Rearrange(multiset{head.node}, multiset(Flatten(head.children)), multiset(Flatten(tail')),
      multiset(Flatten(x)), multiset(Flatten(tail)), multiset(Flatten(y)));
  }

  lemma Rearrange<T>(n: multiset<T>, h: multiset<T>, a: multiset<T>, x: multiset<T>, b: multiset<T>, y: multiset<T>)
    requires a + x == b + y
    ensures n + h + a + x == n + h + b + y
  {
    assert forall o :: (n + h + a + x)[o] == n[o] + h[o] + (a + x)[o];
  }

  /** Following one segment from a section reaches a child of its map. */
  lemma FollowStep(b: Option<Node>, cs: seq<Child>, w: seq<string>)
    requires w != [] && Follow(Section(b, cs), w).Some?
    ensures Get(cs, w[0]).Some?
    ensures Follow(Section(b, cs), w) == Follow(AsSection(Get(cs, w[0]).value), w[1..])
  {
  }

  /** Everything listed below the section at a path is listed below the root. */
  lemma {:induction false} SubtreeFlatten(b: Option<Node>, cs: seq<Child>, w: seq<string>)
    requires Follow(Section(b, cs), w).Some?
    ensures multiset(Flatten(Follow(Section(b, cs), w).value.children)) <= multiset(Flatten(cs))
    decreases w
  {
    if w != [] {
      FollowStep(b, cs, w);
      var p := Get(cs, w[0]).value;
      var i :| 0 <= i < |cs| && cs[i] == p;
      FlattenAt(cs, i);
      SubtreeFlatten(Some(p.node), p.children, w[1..]);
    }
  }

  /** Appending `y` to the children of the section at a path adds the listing of `y`. */
  lemma {:induction false} FlattenSetGrow(b: Option<Node>, cs: seq<Child>, w: seq<string>, y: seq<Child>)
    requires Follow(Section(b, cs), w).Some?
    ensures multiset(Flatten(SetChildrenAt(cs, w, Follow(Section(b, cs), w).value.children + y))) ==
      multiset(Flatten(cs)) + multiset(Flatten(y))
    decreases w
  {
    var x := Follow(Section(b, cs), w).value.children + y;
    if w == [] {
      FlattenAppend(cs, y);
    } else {
      FollowStep(b, cs, w);
      var p := Get(cs, w[0]).value;
      var q := p.(children := SetChildrenAt(p.children, w[1..], x));
      assert SetChildrenAt(cs, w, x) == Put(cs, q);
      assert Follow(Section(Some(p.node), p.children), w[1..]) == Follow(Section(b, cs), w);
      FlattenSetGrow(Some(p.node), p.children, w[1..], y);
      FlattenPut(cs, q);
      assert Get(cs, q.key) == Some(p);
      Cancel(multiset(Flatten(Put(cs, q))), multiset(Flatten(p.children)), multiset(Flatten(cs)), multiset(Flatten(y)));
    }
  }

  lemma Cancel<T>(a: multiset<T>, p: multiset<T>, c: multiset<T>, y: multiset<T>)
    requires a + p == c + (p + y)
    ensures a == c + y
  {
    forall o
      ensures a[o] == (c + y)[o]
    {
      assert (a + p)[o] == (c + (p + y))[o];
    }
  }

  // ---------------------------------------------------------------------------
  // Placement is kept

  lemma PlacedSnoc(cs: seq<Child>, prefix: seq<string>, c: Child)
    requires Placed(cs, prefix) && c.key !in KeysOf(cs) && c.children == []
    requires WellFormedPath(c.node.path) && Split(c.node.path) == prefix + [c.key]
    ensures Placed(cs + [c], prefix)
  {
    KeysOfAppend(cs, [c]);
    var ks := KeysOf(cs + [c]);
    KeysOfLength(cs);
    assert ks == KeysOf(cs) + [c.key];
    assert forall i :: 0 <= i < |cs| ==> ks[i] == KeysOf(cs)[i];
    assert Placed(c.children, prefix + [c.key]);
  }

  /** Giving the section at `w` placed children keeps the whole tree placed. */
  lemma {:induction false} PlacedSet(b: Option<Node>, cs: seq<Child>, prefix: seq<string>, w: seq<string>, x: seq<Child>)
    requires Placed(cs, prefix) && Follow(Section(b, cs), w).Some?
    requires Placed(x, prefix + w)
    ensures Placed(SetChildrenAt(cs, w, x), prefix)
    decreases w
  {
    if w == [] {
      assert prefix + w == prefix;
    } else {
      FollowStep(b, cs, w);
      var p := Get(cs, w[0]).value;
      PlacedChild(cs, prefix, w[0]);
      StepDown(prefix, w);
      PlacedSet(Some(p.node), p.children, prefix + [w[0]], w[1..], x);
      PlacedSetStep(cs, prefix, w, x);
    }
  }

  lemma PlacedSetStep(cs: seq<Child>, prefix: seq<string>, w: seq<string>, x: seq<Child>)
    requires w != [] && Placed(cs, prefix) && Get(cs, w[0]).Some?
    requires Placed(SetChildrenAt(Get(cs, w[0]).value.children, w[1..], x), prefix + [w[0]])
    ensures Placed(SetChildrenAt(cs, w, x), prefix)
  {
    var p := Get(cs, w[0]).value;
    var q := p.(children := SetChildrenAt(p.children, w[1..], x));
    assert SetChildrenAt(cs, w, x) == Put(cs, q);
    PlacedPut(cs, prefix, q);
  }

  /** A path is its first segment followed by the rest. */
  lemma StepDown(prefix: seq<string>, w: seq<string>)
    requires w != []
    ensures (prefix + [w[0]]) + w[1..] == prefix + w
  {
    assert w == [w[0]] + w[1..];
  }

  /** The entry under a key of a placed map is placed one level down. */
  lemma PlacedChild(cs: seq<Child>, prefix: seq<string>, k: string)
    requires Placed(cs, prefix) && Get(cs, k).Some?
    ensures Placed(Get(cs, k).value.children, prefix + [k])
  {
    assert Get(cs, k).value in cs;
  }

  /** Replacing a placed entry by one with the same key and node and placed children
      keeps the map placed. */
  lemma PlacedPut(cs: seq<Child>, prefix: seq<string>, q: Child)
    requires Placed(cs, prefix) && Get(cs, q.key).Some? && Get(cs, q.key).value.node == q.node
    requires Placed(q.children, prefix + [q.key])
    ensures Placed(Put(cs, q), prefix)
  {
    var p := Get(cs, q.key).value;
    assert p in cs;
    PutElements(cs, q);
  }

  // ---------------------------------------------------------------------------
  // Where a listed node sits

  /** Looking a key of the front up in a longer map finds the same entry. */
  lemma {:induction false} GetAppend(a: seq<Child>, b: seq<Child>, k: string)
    requires k in KeysOf(a)
    ensures Get(a + b, k) == Get(a, k)
  {
    assert (a + b)[0] == a[0] && (a + b)[1..] == a[1..] + b;
    if a[0].key != k {
      GetAppend(a[1..], b, k);
    }
  }

  /** `m` is the base of the section reached from `Section(b, cs)` through the
      segments of its path after `prefix`, and that section's children are placed
      under the whole path. */
  predicate SitsAt(b: Option<Node>, cs: seq<Child>, prefix: seq<string>, m: Node)
  {
    var segs := Split(m.path);
    && |prefix| < |segs| && segs[..|prefix|] == prefix
    && Follow(Section(b, cs), segs[|prefix|..]).Some?
    && Follow(Section(b, cs), segs[|prefix|..]).value.base == Some(m)
    && Placed(Follow(Section(b, cs), segs[|prefix|..]).value.children, segs)
  }

  /** A node listed below a placed map sits at the path its own segments spell,
      relative to the map's prefix, as the base of a section with placed children. */
  lemma {:induction false} FoundInPlaced(b: Option<Node>, cs: seq<Child>, prefix: seq<string>, m: Node)
    requires Placed(cs, prefix) && m in Flatten(cs)
    ensures SitsAt(b, cs, prefix, m)
    decreases Count(cs)
  {
    var init, last := cs[..|cs| - 1], cs[|cs| - 1];
    LastParts(cs);
    PlacedFront(cs, prefix);
    PlacedLast(cs, prefix);
    if m in Flatten(init) {
      FoundInPlaced(b, init, prefix, m);
      LastFresh(cs);
      FoundInFront(b, init, last, prefix, m);
    } else if m == last.node {
      FoundLast(b, cs, prefix);
    } else {
      FoundInPlaced(Some(last.node), last.children, prefix + [last.key], m);
      FoundBelow(b, cs, prefix, m);
    }
  }

  /** The last entry of a map without repeated keys has a key none before it has. */
  lemma LastFresh(cs: seq<Child>)
    requires cs != [] && NoDup(KeysOf(cs))
    ensures cs == cs[..|cs| - 1] + [cs[|cs| - 1]]
    ensures cs[|cs| - 1].key !in KeysOf(cs[..|cs| - 1])
  {
    var init, last := cs[..|cs| - 1], cs[|cs| - 1];
    InitLast(cs);
    KeysSnoc(init, last);
    NoDupSnoc(KeysOf(init), last.key);
  }

  lemma FoundInFront(b: Option<Node>, init: seq<Child>, last: Child, prefix: seq<string>, m: Node)
    requires SitsAt(b, init, prefix, m) && last.key !in KeysOf(init)
    ensures SitsAt(b, init + [last], prefix, m)
  {
    var w := Split(m.path)[|prefix|..];
    FollowStep(b, init, w);
    GetAppend(init, [last], w[0]);
  }

  lemma FoundLast(b: Option<Node>, cs: seq<Child>, prefix: seq<string>)
    requires cs != [] && Placed(cs, prefix)
    ensures SitsAt(b, cs, prefix, cs[|cs| - 1].node)
  {
    var last := cs[|cs| - 1];
    assert last in cs;
    var segs := Split(last.node.path);
    assert segs == prefix + [last.key];
    assert segs[..|prefix|] == prefix && segs[|prefix|..] == [last.key];
    GetUnique(cs, last);
    assert [last.key][1..] == [];
  }

  lemma FoundBelow(b: Option<Node>, cs: seq<Child>, prefix: seq<string>, m: Node)
    requires cs != [] && Placed(cs, prefix)
    requires SitsAt(Some(cs[|cs| - 1].node), cs[|cs| - 1].children, prefix + [cs[|cs| - 1].key], m)
    ensures SitsAt(b, cs, prefix, m)
  {
    var last := cs[|cs| - 1];
    assert last in cs;
    GetUnique(cs, last);
    PathBelow(Split(m.path), prefix, last.key);
  }

  lemma PathBelow(segs: seq<string>, prefix: seq<string>, k: string)
    requires |prefix| + 1 < |segs| && segs[..|prefix| + 1] == prefix + [k]
    ensures |prefix| < |segs| && segs[..|prefix|] == prefix
    ensures segs[|prefix|..] != [] && segs[|prefix|..][0] == k && segs[|prefix|..][1..] == segs[|prefix| + 1..]
  {
    assert segs[..|prefix|] == segs[..|prefix| + 1][..|prefix|];
  }

  // ---------------------------------------------------------------------------
  // Any parents-first node list is rebuilt up to order

  /** The segments of the parent's path: all but the last. */
  function ParentWalk(n: Node): seq<string>
  {
    var segs := Split(n.path);
    if segs == [] then [] else segs[..|segs| - 1]
  }

  lemma ParentWalkSplit(n: Node)
    requires WellFormedPath(n.path)
    ensures |Split(n.path)| >= 1 && Split(n.path) == ParentWalk(n) + [Split(n.path)[|Split(n.path)| - 1]]
  {
    SplitWellFormed(n.path);
    InitLast(Split(n.path));
  }

  /** Well-formed, distinct paths, and every node below the top level comes after a
      node whose path is its parent's. */
  predicate Buildable(nodes: seq<Node>)
  {
    && (forall j :: 0 <= j < |nodes| ==> WellFormedPath(nodes[j].path))
    && (forall i, j :: 0 <= i < j < |nodes| ==> nodes[i].path != nodes[j].path)
    && ParentsFirst(nodes)
  }

  predicate ParentsFirst(nodes: seq<Node>)
  {
    forall j :: 0 <= j < |nodes| && |Split(nodes[j].path)| > 1 ==> HasParentBefore(nodes, j)
  }

  predicate HasParentBefore(nodes: seq<Node>, j: nat)
    requires j < |nodes|
  {
    exists i :: 0 <= i < j && Split(nodes[i].path) == ParentWalk(nodes[j])
  }

  lemma BuildableFront(nodes: seq<Node>)
    requires nodes != [] && Buildable(nodes)
    ensures Buildable(nodes[..|nodes| - 1])
  {
    var init := nodes[..|nodes| - 1];
    assert forall j :: 0 <= j < |init| ==> init[j] == nodes[j];
    forall j | 0 <= j < |init| && |Split(init[j].path)| > 1
      ensures HasParentBefore(init, j)
    {
      ParentBeforeFront(nodes, j);
    }
  }

  lemma ParentBeforeFront(nodes: seq<Node>, j: nat)
    requires j < |nodes| - 1 && HasParentBefore(nodes, j)
    ensures HasParentBefore(nodes[..|nodes| - 1], j)
  {
    var init := nodes[..|nodes| - 1];
    var i :| 0 <= i < j && Split(nodes[i].path) == ParentWalk(nodes[j]);
    assert init[i] == nodes[i] && init[j] == nodes[j];
  }

  lemma BuildableLast(nodes: seq<Node>)
    requires nodes != [] && Buildable(nodes)
    ensures var init, m := nodes[..|nodes| - 1], nodes[|nodes| - 1];
      && WellFormedPath(m.path)
      && (forall i :: 0 <= i < |init| ==> init[i].path != m.path)
      && (|Split(m.path)| > 1 ==> exists i :: 0 <= i < |init| && Split(init[i].path) == ParentWalk(m))
  {
    var init, m := nodes[..|nodes| - 1], nodes[|nodes| - 1];
    if |Split(m.path)| > 1 {
      var i :| 0 <= i < |nodes| - 1 && Split(nodes[i].path) == ParentWalk(m);
      assert init[i] == nodes[i];
    }
  }

  /** The parent of a node whose parent path is listed in a placed tree exists there,
      with placed children. */
  lemma ParentFound(cs: seq<Child>, init: seq<Node>, m: Node)
    requires Placed(cs, []) && multiset(Flatten(cs)) == multiset(init) && WellFormedPath(m.path)
    requires |Split(m.path)| > 1 ==> exists i :: 0 <= i < |init| && Split(init[i].path) == ParentWalk(m)
    ensures Follow(Section(None, cs), ParentWalk(m)).Some?
    ensures Placed(Follow(Section(None, cs), ParentWalk(m)).value.children, ParentWalk(m))
  {
    SplitWellFormed(m.path);
    if |Split(m.path)| > 1 {
      var i :| 0 <= i < |init| && Split(init[i].path) == ParentWalk(m);
      assert init[i] in multiset(init);
      FoundInPlaced(None, cs, [], init[i]);
      assert Split(init[i].path)[0..] == Split(init[i].path);
    }
  }

  /** A node whose path is not listed yet has a key that is new under its parent. */
  lemma KeyFresh(cs: seq<Child>, init: seq<Node>, m: Node, walk: seq<string>, key: string)
    requires Placed(cs, []) && multiset(Flatten(cs)) == multiset(init)
    requires WellFormedPath(m.path) && Split(m.path) == walk + [key]
    requires forall i :: 0 <= i < |init| ==> init[i].path != m.path
    requires Follow(Section(None, cs), walk).Some?
    requires Placed(Follow(Section(None, cs), walk).value.children, walk)
    ensures key !in KeysOf(Follow(Section(None, cs), walk).value.children)
  {
    var kids := Follow(Section(None, cs), walk).value.children;
    forall c | c in kids
      ensures c.key != key
    {
      ListedChild(None, cs, walk, c);
      assert c.node in multiset(init);
      var i :| 0 <= i < |init| && init[i] == c.node;
      SplitDistinct(c.node.path, m.path);
    }
    var found := Get(kids, key);
  }

  /** The node of a child of the section at a path is listed below the root. */
  lemma ListedChild(b: Option<Node>, cs: seq<Child>, walk: seq<string>, c: Child)
    requires Follow(Section(b, cs), walk).Some? && c in Follow(Section(b, cs), walk).value.children
    ensures c.node in multiset(Flatten(cs))
  {
    var kids := Follow(Section(b, cs), walk).value.children;
    var k :| 0 <= k < |kids| && kids[k] == c;
    FlattenAt(kids, k);
    assert c.node in multiset(Flatten(kids));
    SubtreeFlatten(b, cs, walk);
  }

  /** Distinct well-formed paths have distinct segments. */
  lemma SplitDistinct(s: string, t: string)
    requires WellFormedPath(s) && WellFormedPath(t) && s != t
    ensures Split(s) != Split(t)
  {
    if Split(s) == Split(t) {
      SplitInjective(s, t);
    }
  }

  /** Decoding one more node that attaches cleanly. */
  lemma DecodeSnoc(init: seq<Node>, m: Node, cs: seq<Child>, next: seq<Child>)
    requires Decode([], init) == Decoded(cs, None)
    requires CreateIn(cs, Section(Some(m), [])) == Ok(next)
    ensures Decode([], init + [m]) == Decoded(next, None)
  {
    DecodeAppend([], init, [m]);
    assert [m][1..] == [];
  }

  /** decodeNodes on a buildable node list raises nothing and builds a placed tree
      whose getNodeValues holds exactly the input nodes, each once: a permutation of
      the input. */
  lemma {:induction false} DecodeBuildable(nodes: seq<Node>)
    requires Buildable(nodes)
    ensures Decode([], nodes).error.None?
    ensures Placed(Decode([], nodes).children, [])
    ensures multiset(Flatten(Decode([], nodes).children)) == multiset(nodes)
    decreases |nodes|
  {
    if nodes != [] {
      var init, m := nodes[..|nodes| - 1], nodes[|nodes| - 1];
      BuildableFront(nodes);
      BuildableLast(nodes);
      DecodeBuildable(init);
      InitLast(nodes);
      BuildStep(init, m, Decode([], init).children);
    }
  }

  /** One more node onto a tree built so far. */
  lemma BuildStep(init: seq<Node>, m: Node, cs: seq<Child>)
    requires Decode([], init) == Decoded(cs, None)
    requires Placed(cs, []) && multiset(Flatten(cs)) == multiset(init)
    requires WellFormedPath(m.path)
    requires forall i :: 0 <= i < |init| ==> init[i].path != m.path
    requires |Split(m.path)| > 1 ==> exists i :: 0 <= i < |init| && Split(init[i].path) == ParentWalk(m)
    ensures Decode([], init + [m]).error.None?
    ensures Placed(Decode([], init + [m]).children, [])
    ensures multiset(Flatten(Decode([], init + [m]).children)) == multiset(init + [m])
  {
    var segs := Split(m.path);
    ParentWalkSplit(m);
    var walk, key := ParentWalk(m), segs[|segs| - 1];
    ParentFound(cs, init, m);
    var kids := Follow(Section(None, cs), walk).value.children;
    KeyFresh(cs, init, m, walk, key);
    AttachLeaf(cs, walk, m, key);
    var c := Child(key, m, []);
    var next := SetChildrenAt(cs, walk, kids + [c]);
    DecodeSnoc(init, m, cs, next);
    PlacedSnoc(kids, walk, c);
    assert [] + walk == walk;
    PlacedSet(None, cs, [], walk, kids + [c]);
    FlattenSetGrow(None, cs, walk, [c]);
    FlattenSingle(c);
  }

  /** The same on the objects: a fresh configuration's decodeNodes on a buildable
      list raises nothing, and getNodeValues then lists the input nodes in some
      order. */
  method DecodeThenList(nodes: seq<Node>) returns (error: Option<Error>, listed: seq<Node>)
    requires Buildable(nodes)
    ensures error.None? && multiset(listed) == multiset(nodes)
  {
    var cfg := new CommentedConfiguration(None, None);
    error := cfg.DecodeNodes(nodes);
    listed := cfg.root.GetNodeValues();
    DecodeBuildable(nodes);
  }

  /** A placed tree listed, decoded and listed again gives back its listing. */
  method ListDecodeList(cs: seq<Child>) returns (error: Option<Error>, listed: seq<Node>)
    requires Placed(cs, [])
    ensures error.None? && listed == Flatten(cs)
  {
    var nodes := Sections.ConfigSection.NodeValuesOf(cs);
    var cfg := new CommentedConfiguration(None, None);
    error := cfg.DecodeNodes(nodes);
    listed := cfg.root.GetNodeValues();
    DecodeFlatten(cs);
  }
}
