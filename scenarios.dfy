/** Worked scenarios: a document seeded from its defaults, and the shallow and deep
    key listings of one section. */
module Scenarios {
  import opened JavaLang
  import opened ConfigTree
  import opened Getters
  import opened Sections
  import opened Configuration

  /** Decoding two top-level nodes yields two childless entries, in order. */
  lemma DecodeTwoTopLevel(a: Node, b: Node)
    requires '.' !in a.path && '.' !in b.path && a.path != b.path
    ensures Decode([], [a, b]) == Decoded([Child(a.path, a, []), Child(b.path, b, [])], None)
  {
    var ca, cb := Child(a.path, a, []), Child(b.path, b, []);
    TopLevel([], a);
    TopLevel([ca], b);
    assert Put([ca], cb) == [ca, cb] by {
      assert [ca][1..] == [];
    }
    DecodeFirst([], [a, b]);
    DecodeFirst([ca], [b]);
    assert [a, b][1..] == [b] && [b][1..] == [];
  }

  /** A node whose path has no dot goes straight into the map under its path. */
  lemma TopLevel(cs: seq<Child>, n: Node)
    requires '.' !in n.path
    ensures CreateIn(cs, Section(Some(n), [])) == Ok(Put(cs, Child(n.path, n, [])))
  {
  }

  /** Decoding starts with the first node. */
  lemma DecodeFirst(cs: seq<Child>, nodes: seq<Node>)
    requires nodes != [] && CreateIn(cs, Section(Some(nodes[0]), [])).Ok?
    ensures Decode(cs, nodes) == Decode(CreateIn(cs, Section(Some(nodes[0]), [])).value, nodes[1..])
  {
  }

  /** The defaults A: 1 and B: 2 seed an empty document with exactly those two entries. */
  lemma SeedTree()
    ensures LoadResult([], true, Some([]), Some([Node("A", ["1"]), Node("B", ["2"])]), []) ==
      Decoded([Child("A", Node("A", ["1"]), []), Child("B", Node("B", ["2"]), [])], None)
  {
    var d := [Node("A", ["1"]), Node("B", ["2"])];
    DecodeTwoTopLevel(d[0], d[1]);
    FlattenTwo(d[0], d[1]);
    SeedsCopied(d);
  }

  /** Two childless entries list their two nodes. */
  lemma FlattenTwo(a: Node, b: Node)
    ensures Flatten([Child(a.path, a, []), Child(b.path, b, [])]) == [a, b]
  {
    var tree := [Child(a.path, a, []), Child(b.path, b, [])];
    assert tree[..1] == [tree[0]] && tree[..0] == [];
  }

  /** With nothing loaded, an empty ignore list and a defaults tree that lists the
      defaults themselves, load decodes the defaults. */
  lemma SeedsCopied(d: seq<Node>)
    requires Decode([], d).error.None? && Flatten(Decode([], d).children) == d
    ensures LoadResult([], true, Some([]), Some(d), []) == Decode([], d)
  {
    CopiedIgnoringNothing(d);
    assert ToDecode(true, Some([]), Some(d), []) == Ok(d);
  }

  /** In the seeded tree, getString finds each default's value. */
  lemma SeedLookups()
    ensures var tree := Section(None, [Child("A", Node("A", ["1"]), []), Child("B", Node("B", ["2"]), [])]);
      GetString(tree, "A", "") == Ok("1") && GetString(tree, "B", "") == Ok("2") &&
      Flatten(tree.children) == [Node("A", ["1"]), Node("B", ["2"])]
  {
    var tree := Section(None, [Child("A", Node("A", ["1"]), []), Child("B", Node("B", ["2"]), [])]);
    SectionAtSegment(tree, "A");
    SectionAtSegment(tree, "B");
    FlattenTwo(Node("A", ["1"]), Node("B", ["2"]));
  }

  /** Loading with an empty primary source and the defaults A: 1, B: 2 copies both
      defaults: getString finds "1" and "2", and the tree's nodes, which save would
      write out, are the two defaults in order. */
  method SeedFromDefaults() returns (a: Result<string>, b: Result<string>, written: seq<Node>)
    ensures a == Ok("1") && b == Ok("2")
    ensures written == [Node("A", ["1"]), Node("B", ["2"])]
  {
    var cfg := new CommentedConfiguration(Some([]), Some([Node("A", ["1"]), Node("B", ["2"])]));
    var error := cfg.Load();
    SeedTree();
    SeedLookups();
    a := GetString(cfg.root.View(), "A", "");
    b := GetString(cfg.root.View(), "B", "");
    written := cfg.root.GetNodeValues();
  }

  /** The section A holding A.B (itself holding A.B.D) and A.C. */
  function SectionA(): Section
  {
    Section(Some(Node("A", [])), [
      Child("B", Node("A.B", ["1"]), [Child("D", Node("A.B.D", ["2"]), [])]),
      Child("C", Node("A.C", ["3"]), [])])
  }

  /** A string that lacks the first character of `t` does not contain `t`. */
  lemma LacksFirst(s: string, t: string)
    requires t != [] && t[0] !in s
    ensures !ContainsSubstring(s, t)
  {
    forall i | 0 <= i <= |s| - |t|
      ensures !OccursAt(s, t, i)
    {
      assert s[i..i + |t|][0] == s[i];
    }
  }

  /** Relative keys strip "A." from each path. */
  lemma Relative(rel: string)
    requires 'A' !in rel
    ensures RemoveAll("A." + rel, "A.") == rel
  {
    LacksFirst(rel, "A.");
    RemoveAllPrefix("A.", rel);
  }

  /** Two one-letter segments around a dot, such as "B.D", split into both letters. */
  lemma SplitPair(x: char, y: char)
    requires x != '.' && y != '.'
    ensures Split([x, '.', y]) == [[x], [y]]
  {
    PiecesAt([x], [y]);
    SinglePiece([y]);
    assert [x, '.', y] == [x] + "." + [y];
    assert '.' in [x, '.', y] by {
      assert [x, '.', y][1] == '.';
    }
    assert Pieces([x, '.', y]) == [[x], [y]];
  }

  lemma FlattenSectionA()
    ensures Flatten(SectionA().children) == [Node("A.B", ["1"]), Node("A.B.D", ["2"]), Node("A.C", ["3"])]
  {
    var cs := SectionA().children;
    var inner := [Child("D", Node("A.B.D", ["2"]), [])];
    assert inner[..0] == [];
    assert Flatten(inner) == [Node("A.B.D", ["2"])];
    assert cs[..1] == [cs[0]] && cs[..1][..0] == [];
    assert Flatten(cs[..1]) == [Node("A.B", ["1"]), Node("A.B.D", ["2"])];
  }

  /** The keys getKeys derives from A's nodes, one per node. */
  lemma KeyStringsOfSectionA(deep: bool)
    ensures KeyStrings(SectionA().base, Flatten(SectionA().children), deep) ==
      if deep then Ok(["B", "B.D", "C"]) else Ok(["B", "B", "C"])
  {
    var base := SectionA().base;
    var n0, n1, n2 := Node("A.B", ["1"]), Node("A.B.D", ["2"]), Node("A.C", ["3"]);
    var k0, k1, k2 := "B", if deep then "B.D" else "B", "C";
    FlattenSectionA();
    KeyOfB(deep);
    KeyOfBD(deep);
    KeyOfC(deep);
    Snocs(n0, n1, n2);
    Snocs(k0, k1, k2);
    KeyStringsSnoc(base, [], n0, deep, [], k0);
    KeyStringsSnoc(base, [n0], n1, deep, [k0], k1);
    KeyStringsSnoc(base, [n0, n1], n2, deep, [k0, k1], k2);
  }

  lemma Snocs<T>(x: T, y: T, z: T)
    ensures [] + [x] == [x] && [x] + [y] == [x, y] && [x, y] + [z] == [x, y, z]
  {
  }

  /** Listing one more node adds its key at the end. */
  lemma KeyStringsSnoc(base: Option<Node>, nodes: seq<Node>, n: Node, deep: bool, ks: seq<string>, k: string)
    requires KeyStrings(base, nodes, deep) == Ok(ks) && KeyOf(base, n, deep) == Ok(k)
    ensures KeyStrings(base, nodes + [n], deep) == Ok(ks + [k])
  {
    assert (nodes + [n])[..|nodes|] == nodes;
  }

  lemma KeyOfB(deep: bool)
    ensures KeyOf(SectionA().base, Node("A.B", ["1"]), deep) == Ok("B")
  {
    Relative("B");
    assert "A" + "." == "A." && "A." + "B" == "A.B";
    assert Split("B") == ["B"];
  }

  lemma KeyOfBD(deep: bool)
    ensures KeyOf(SectionA().base, Node("A.B.D", ["2"]), deep) == if deep then Ok("B.D") else Ok("B")
  {
    Relative("B.D");
    assert "A" + "." == "A." && "A." + "B.D" == "A.B.D";
    SplitPair('B', 'D');
    assert "B.D" == ['B', '.', 'D'];
  }

  lemma KeyOfC(deep: bool)
    ensures KeyOf(SectionA().base, Node("A.C", ["3"]), deep) == Ok("C")
  {
    Relative("C");
    assert "A" + "." == "A." && "A." + "C" == "A.C";
    assert Split("C") == ["C"];
  }

  /** getKeys(false) on A lists the first segments B and C, each once. */
  lemma ShallowKeysOfSectionA()
    ensures KeySet(SectionA(), false) == Ok(["B", "C"])
  {
    KeyStringsOfSectionA(false);
    Snocs("B", "B", "C");
    DedupSnoc([], "B");
    DedupSnoc(["B"], "B");
    DedupSnoc(["B", "B"], "C");
    Snocs("B", "C", "C");
  }

  /** getKeys(true) on A lists the relative paths in pre-order: B, B.D, C. */
  lemma DeepKeysOfSectionA()
    ensures KeySet(SectionA(), true) == Ok(["B", "B.D", "C"])
  {
    KeyStringsOfSectionA(true);
    Snocs("B", "B.D", "C");
    DedupSnoc([], "B");
    DedupSnoc(["B"], "B.D");
    DedupSnoc(["B", "B.D"], "C");
    assert "B.D" != "B" by {
      assert |"B.D"| == 3;
    }
  }

  /** replace removes every occurrence of "A.", not only the leading one: under A,
      the node A.B.A.C has the deep key "B.C" and the shallow key "B". */
  lemma KeyOfRepeatedBase(deep: bool)
    ensures KeyOf(SectionA().base, Node("A.B.A.C", []), deep) == if deep then Ok("B.C") else Ok("B")
  {
    RemoveEveryBase();
    assert "A" + "." == "A.";
    SplitPair('B', 'C');
    assert "B.C" == ['B', '.', 'C'];
  }

  /** "A." is removed at the start and again in the middle of "A.B.A.C". */
  lemma RemoveEveryBase()
    ensures RemoveAll("A.B.A.C", "A.") == "B.C"
  {
    var s := "A.B.A.C";
    assert s[..2] == "A." && s[2..] == "B.A.C";
    var t := "B.A.C";
    assert t[..2] != "A." by {
      assert t[0] == 'B';
    }
    assert t[1..] == ".A.C";
    var u := ".A.C";
    assert u[..2] != "A." by {
      assert u[0] == '.';
    }
    assert u[1..] == "A.C";
    var v := "A.C";
    assert v[..2] == "A." && v[2..] == "C";
    assert RemoveAll("C", "A.") == "C";
    assert RemoveAll(v, "A.") == "C";
    assert RemoveAll(u, "A.") == "." + "C";
    assert RemoveAll(t, "A.") == "B" + ".C";
  }
}
