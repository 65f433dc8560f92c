/** ConfigSection.java as a class: its own node, fixed at construction, and the
    children map that createSection updates in place. The sections stored in the map
    are values (see ConfigTree), so a query returns a copy of the section it finds. */
module Sections {
  import opened JavaLang
  import opened ConfigTree

  class ConfigSection {
    const baseNode: Option<Node>
    var children: seq<Child>

    /** This section as a value. */
    function View(): Section
      reads this
    {
      Section(baseNode, children)
    }

    constructor (baseNode: Option<Node>)
      ensures this.baseNode == baseNode && children == []
    {
      this.baseNode := baseNode;
      children := [];
    }

    /** getSection(path): the segment loop with its `section` cursor. */
    method GetSection(path: string) returns (r: Result<Option<Section>>)
      ensures r == SectionAt(View(), path)
    {
      var segs := Split(path);
      var section: Option<Section> := Some(View());
      var i := 0;
      while i < |segs|
        invariant i <= |segs|
        invariant Walk(section, segs, i) == SectionAt(View(), path)
      {
        if EqualsIgnoreCase(segs[i], segs[|segs| - 1]) {
          if section.None? {
            return Err(NullPointer);
          }
          return Ok(Lookup(section.value, segs[i]));
        }
        if section.None? {
          break;
        }
        section := Lookup(section.value, segs[i]);
        i := i + 1;
      }
      return Ok(section);
    }

    /** getNode(path): the same loop, dereferencing the child it stops at. */
    method GetNode(path: string) returns (r: Result<Option<Node>>)
      ensures r == NodeAt(View(), path)
    {
      var segs := Split(path);
      var section: Option<Section> := Some(View());
      var i := 0;
      while i < |segs|
        invariant i <= |segs|
        invariant NodeWalk(section, segs, i) == NodeAt(View(), path)
      {
        if EqualsIgnoreCase(segs[i], segs[|segs| - 1]) {
          if section.None? {
            return Err(NullPointer);
          }
          var child := Lookup(section.value, segs[i]);
          if child.None? {
            return Err(NullPointer);
          }
          return Ok(child.value.base);
        }
        if section.None? {
          break;
        }
        section := Lookup(section.value, segs[i]);
        i := i + 1;
      }
      if section.None? {
        return Ok(None);
      }
      return Ok(section.value.base);
    }

    /** contains(path). */
    method Contains(path: string) returns (r: Result<bool>)
      ensures r.Err? <==> SectionAt(View(), path).Err?
      ensures r.Ok? ==> (r.value <==> SectionAt(View(), path).value.Some?)
    {
      var found := GetSection(path);
      match found
      case Err(e) => return Err(e);
      case Ok(s) => return Ok(s.Some?);
    }

    /** getNodeValues(): every node below this section in pre-order. */
    method GetNodeValues() returns (r: seq<Node>)
      ensures r == Flatten(children)
    {
      r := NodeValuesOf(children);
    }

    /** getNodeValues on a children map: each child's node, then (when it has
        children) its own getNodeValues. */
    static method NodeValuesOf(cs: seq<Child>) returns (r: seq<Node>)
      ensures r == Flatten(cs)
    {
      r := [];
      var i := 0;
      while i < |cs|
        invariant i <= |cs|
        invariant r == Flatten(cs[..i])
      {
        var c := cs[i];
        assert cs[..i + 1][..i] == cs[..i];
        r := r + [c.node];
        if |c.children| > 0 {
          var below := NodeValuesOf(c.children);
          r := r + below;
        }
        i := i + 1;
      }
      assert cs[..|cs|] == cs;
    }

    /** getKeys(deep): one key per node of getNodeValues, added to the set when new. */
    method GetKeys(deep: bool) returns (r: Result<seq<string>>)
      ensures r == KeySet(View(), deep)
    {
      var nodes := GetNodeValues();
      var keys: seq<string> := [];
      var i := 0;
      while i < |nodes|
        invariant i <= |nodes|
        invariant KeyStrings(baseNode, nodes[..i], deep).Ok?
        invariant keys == Dedup(KeyStrings(baseNode, nodes[..i], deep).value)
      {
        KeyStringsNext(baseNode, nodes, i, deep);
        var keyStr := if baseNode.None? then nodes[i].path else RemoveAll(nodes[i].path, baseNode.value.path + ".");
        if !deep {
          var parts := Split(keyStr);
          if |parts| == 0 {
            KeyStringsStopsAtError(baseNode, nodes, i + 1, deep);
            return Err(IndexOutOfBounds);
          }
          keyStr := parts[0];
        }
        DedupSnoc(KeyStrings(baseNode, nodes[..i], deep).value, keyStr);
        if keyStr !in keys {
          keys := keys + [keyStr];
        }
        i := i + 1;
      }
      assert nodes[..|nodes|] == nodes;
      return Ok(keys);
    }

    /** getKeys() is getKeys(false). */
    method GetKeysShallow() returns (r: Result<seq<string>>)
      ensures r == KeySet(View(), false)
    {
      r := GetKeys(false);
    }

    /** createSection(section): walks to the parent one getSection(segment) at a
        time and puts the section there. The exception of a missing parent leaves
        the map as it was. */
    method CreateSection(section: Section) returns (outcome: Result<()>)
      modifies this
      ensures CreateIn(old(children), section).Ok? ==>
        outcome.Ok? && children == CreateIn(old(children), section).value
      ensures CreateIn(old(children), section).Err? ==>
        outcome == Err(CreateIn(old(children), section).error) && children == old(children)
    {
      if section.base.None? {
        return Err(NullPointer);
      }
      var n := section.base.value;
      var split := Split(n.path);
      if |split| > 1 {
        var walk := split[..|split| - 1];
        var c := Child(split[|split| - 1], n, section.children);
        assert CreateIn(children, section) == AttachAt(children, walk, c);
        var parent := ParentOf(View(), walk);
        AttachAtFollow(baseNode, children, walk, c);
        if parent.None? {
          return Err(NullPointer);
        }
        children := AttachAt(children, walk, c).value;
      } else {
        children := Put(children, Child(n.path, n, section.children));
      }
      return Ok(());
    }
  }

  /** createSection's walk: parent = parent.getSection(segment) for each segment but
      the last. A null parent is where the Java loop dereferences null; the walk
      stops there and reports it. */
  method ParentOf(s: Section, walk: seq<string>) returns (parent: Option<Section>)
    requires forall i :: 0 <= i < |walk| ==> '.' !in walk[i]
    ensures parent == Follow(s, walk)
  {
    parent := Some(s);
    var i := 0;
    while i < |walk|
      invariant i <= |walk|
      invariant parent == Follow(s, walk[..i])
    {
      if parent.None? {
        FollowMissing(s, walk, i, |walk|);
        break;
      }
      SectionAtSegment(parent.value, walk[i]);
      FollowSnoc(s, walk[..i], walk[i]);
      assert walk[..i] + [walk[i]] == walk[..i + 1];
      parent := SectionAt(parent.value, walk[i]).value;
      i := i + 1;
    }
    assert walk[..|walk|] == walk;
  }

  /** Once one key fails, getKeys raises that key's exception. */
  lemma {:induction false} KeyStringsStopsAtError(base: Option<Node>, nodes: seq<Node>, i: nat, deep: bool)
    requires i <= |nodes| && KeyStrings(base, nodes[..i], deep).Err?
    ensures KeyStrings(base, nodes, deep) == KeyStrings(base, nodes[..i], deep)
    decreases |nodes| - i
  {
    if i < |nodes| {
      assert nodes[..i + 1][..i] == nodes[..i];
      KeyStringsStopsAtError(base, nodes, i + 1, deep);
    } else {
      assert nodes[..i] == nodes;
    }
  }
}
