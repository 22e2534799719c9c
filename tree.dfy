/**
 * Tree path resolution (`getPathToFrame`): walking the document tree one path segment at a time,
 * taking the first child with the segment's name, and stopping where a segment is not found.
 */
module TreeResolver {
  import opened Wrappers
  import opened Figma

  /** `children.find(c => c.name === name)`, as the position of the first child with that name. */
  function FindChild(children: seq<Node>, name: string): (r: Option<nat>)
    ensures r.Some? ==> r.value < |children| && children[r.value].name == name
    ensures r.Some? ==> forall k :: 0 <= k < r.value ==> children[k].name != name
    ensures r.None? <==> forall k :: 0 <= k < |children| ==> children[k].name != name
  {
    if children == [] then None
    else if children[0].name == name then Some(0)
    else
      match FindChild(children[1..], name)
      case None => None
      case Some(i) => Some(i + 1)
  }

  /** `getPathToFrame(root, path)`: follow the path while segments are found, return the node reached. */
  function Resolve(root: Node, path: seq<string>): Node
    decreases |path|
  {
    if path == [] then root
    else
      match FindChild(root.children, path[0])
      case None => root
      case Some(i) => Resolve(root.children[i], path[1..])
  }

  /** The strict reading of a path: every segment must be found, otherwise there is no node. */
  function Walk(root: Node, path: seq<string>): Option<Node>
    decreases |path|
  {
    if path == [] then Some(root)
    else
      match FindChild(root.children, path[0])
      case None => None
      case Some(i) => Walk(root.children[i], path[1..])
  }

  /** Following one more segment extends a strict walk by the first child with that name. */
  lemma {:induction false} WalkSnoc(root: Node, path: seq<string>, seg: string)
    ensures Walk(root, path + [seg]) ==
      match Walk(root, path)
      case None => None
      case Some(n) =>
        match FindChild(n.children, seg)
        case None => None
        case Some(i) => Some(n.children[i])
    decreases |path|
  {
    if path == [] {
      assert [] + [seg] == [seg];
      assert [seg][1..] == [];
    } else {
      assert (path + [seg])[0] == path[0];
      assert (path + [seg])[1..] == path[1..] + [seg];
      match FindChild(root.children, path[0])
      case None =>
      case Some(i) => WalkSnoc(root.children[i], path[1..], seg);
    }
  }

  /** When every segment is found, resolution ends at the node at the end of that chain. */
  lemma {:induction false} ResolveFollowsWalk(root: Node, path: seq<string>)
    requires Walk(root, path).Some?
    ensures Resolve(root, path) == Walk(root, path).value
    decreases |path|
  {
    if path != [] {
      match FindChild(root.children, path[0])
      case Some(i) => ResolveFollowsWalk(root.children[i], path[1..]);
    }
  }
  /**
   * When every segment is found, resolving all but the last segment and then looking the last one
   * up among the children reaches the node at the end of the chain.
   */
  lemma LastSegmentFound(root: Node, path: seq<string>)
    requires path != [] && Walk(root, path).Some?
    ensures var parent := Resolve(root, path[..|path| - 1]);
            && FindChild(parent.children, path[|path| - 1]).Some?
            && parent.children[FindChild(parent.children, path[|path| - 1]).value] == Walk(root, path).value
  {
    var prefix := path[..|path| - 1];
    var last := path[|path| - 1];
    assert path == prefix + [last];
    WalkSnoc(root, prefix, last);
    ResolveFollowsWalk(root, prefix);
  }


  /**
   * Resolution in general: the result is the node reached by the longest prefix of the path whose
   * segments are all found, and when that prefix is not the whole path, the next segment names no
   * child of the result.
   */
  lemma {:induction false} ResolveStopsAtMissing(root: Node, path: seq<string>)
    ensures exists k :: 0 <= k <= |path| && Walk(root, path[..k]) == Some(Resolve(root, path)) &&
                        (k < |path| ==> FindChild(Resolve(root, path).children, path[k]).None?)
    decreases |path|
  {
    if path == [] {
      assert path[..0] == [];
    } else {
      match FindChild(root.children, path[0])
      case None =>
        assert path[..0] == [];
        assert Walk(root, path[..0]) == Some(root);
      case Some(i) =>
        var child := root.children[i];
        ResolveStopsAtMissing(child, path[1..]);
        var k :| 0 <= k <= |path[1..]| && Walk(child, path[1..][..k]) == Some(Resolve(child, path[1..])) &&
                 (k < |path[1..]| ==> FindChild(Resolve(child, path[1..]).children, path[1..][k]).None?);
        var p := path[..k + 1];
        assert p[0] == path[0] && p[1..] == path[1..][..k];
        assert Walk(root, p) == Walk(child, path[1..][..k]);
    }
  }
}
