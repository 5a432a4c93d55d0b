/**
 * The first revision of the tree, modules/bunny_hole.mjs: nodes hold only an
 * id and a url, and a new node goes under the node with a given id. Unlike
 * the later tree it refuses to insert when that parent is missing, and it
 * never declines a duplicate.
 *
 * The `#parent` back pointer is implicit: a node's parent is the node at its
 * path minus the last step.
 */
module LegacyHoles {
  import opened Wrappers
  import opened BunnyTabs
  import HoleTrees

  type Path = HoleTrees.Path

  /** `ROOT_ID`: the id of every fresh tree's root. */
  const ROOT_ID: TabId := TabText("ROOT_NODE")

  /** A node's `#id`, `#url` (`None` while undefined) and `#children`. */
  datatype Node = Node(id: TabId, url: Option<string>, children: seq<Node>)

  /** The (id, url) records of a subtree, counted with multiplicity. */
  function Records(n: Node): multiset<(TabId, Option<string>)>
    decreases n, 1
  {
    multiset{(n.id, n.url)} + RecordsOf(n.children)
  }

  function RecordsOf(cs: seq<Node>): multiset<(TabId, Option<string>)>
    decreases cs, 0, |cs|
  {
    if cs == [] then multiset{} else Records(cs[0]) + RecordsOf(cs[1..])
  }

  /** The node reached by following child indices from `n`. */
  function NodeAt(n: Node, p: Path): Option<Node>
    decreases |p|
  {
    if p == [] then Some(n)
    else if p[0] < |n.children| then NodeAt(n.children[p[0]], p[1..])
    else None
  }

  /** `n` with `x` appended to the children of the node at `p`. */
  function AppendAt(n: Node, p: Path, x: Node): Node
    requires NodeAt(n, p).Some?
    decreases |p|
  {
    if p == [] then n.(children := n.children + [x])
    else n.(children := n.children[p[0] := AppendAt(n.children[p[0]], p[1..], x)])
  }

  /** `n` with the last child of the node at `p` taken away (nothing when it has none). */
  function DropLastAt(n: Node, p: Path): Node
    requires NodeAt(n, p).Some?
    decreases |p|
  {
    if p == [] then (if n.children == [] then n else n.(children := n.children[..|n.children| - 1]))
    else n.(children := n.children[p[0] := DropLastAt(n.children[p[0]], p[1..])])
  }

  /** `searchById(id)`: the path of the first node in pre-order whose id is `id`. */
  function FindId(n: Node, id: TabId): Option<Path>
    decreases n, 1
  {
    if n.id == id then Some([]) else FindIdIn(n.children, 0, id)
  }

  /** The loop over children in `searchById`, from index `from` on. */
  function FindIdIn(cs: seq<Node>, from: nat, id: TabId): Option<Path>
    decreases cs, 0, |cs| - from
  {
    if from >= |cs| then None
    else match FindId(cs[from], id)
      case Some(p) => Some([from] + p)
      case None => FindIdIn(cs, from + 1, id)
  }

  /** `searchById`, as the source runs it: the node's own id, then each child's subtree in order. */
  method SearchNode(n: Node, id: TabId) returns (found: Option<Path>)
    ensures found == FindId(n, id)
    decreases n
  {
    if n.id == id {
      return Some([]);
    }
    for i := 0 to |n.children|
      invariant FindIdIn(n.children, 0, id) == FindIdIn(n.children, i, id)
    {
      var result := SearchNode(n.children[i], id);
      if result.Some? {
        return Some([i] + result.value);
      }
    }
    return None;
  }

  /** The loop answers for the first child, from `from` on, whose subtree holds a match. */
  lemma {:induction false} FindIdInFacts(cs: seq<Node>, from: nat, id: TabId)
    ensures FindIdIn(cs, from, id).None? ==> forall j :: from <= j < |cs| ==> FindId(cs[j], id).None?
    ensures FindIdIn(cs, from, id).Some? ==>
              var p := FindIdIn(cs, from, id).value;
              && p != [] && from <= p[0] < |cs|
              && FindId(cs[p[0]], id) == Some(p[1..])
              && forall j :: from <= j < p[0] ==> FindId(cs[j], id).None?
    decreases |cs| - from
  {
    if from < |cs| && FindId(cs[from], id).None? {
      FindIdInFacts(cs, from + 1, id);
    } else if from < |cs| {
      var p := FindIdIn(cs, from, id).value;
      assert p[1..] == FindId(cs[from], id).value;
    }
  }

  /** A found path leads to a node with that id. */
  lemma {:induction false} FindIdSound(n: Node, id: TabId)
    ensures FindId(n, id).Some? ==> NodeAt(n, FindId(n, id).value).Some? && NodeAt(n, FindId(n, id).value).value.id == id
    decreases n
  {
    if n.id != id {
      FindIdInFacts(n.children, 0, id);
      if FindId(n, id).Some? {
        var p := FindId(n, id).value;
        FindIdSound(n.children[p[0]], id);
        assert p == [p[0]] + p[1..];
      }
    }
  }

  /** Every node with the id is found, and the one found comes first in pre-order. */
  lemma {:induction false} FindIdFirst(n: Node, id: TabId, q: Path)
    requires NodeAt(n, q).Some? && NodeAt(n, q).value.id == id
    ensures FindId(n, id).Some?
    ensures FindId(n, id).value == q || HoleTrees.PreBefore(FindId(n, id).value, q)
    decreases |q|
  {
    if n.id != id {
      FindIdFirst(n.children[q[0]], id, q[1..]);
      FindIdInFacts(n.children, 0, id);
      var p := FindId(n, id).value;
      var j := q[0];
      assert p[0] <= j;
      if p[0] == j {
        assert p == [j] + p[1..] && q == [j] + q[1..];
      }
    }
  }

  lemma {:induction false} RecordsOfAppend(a: seq<Node>, b: seq<Node>)
    ensures RecordsOf(a + b) == RecordsOf(a) + RecordsOf(b)
  {
    if a != [] {
      assert (a + b)[0] == a[0] && (a + b)[1..] == a[1..] + b;
      RecordsOfAppend(a[1..], b);
    } else {
      assert a + b == b;
    }
  }

  lemma RecordsOfUpdate(cs: seq<Node>, i: nat, c: Node)
    requires i < |cs|
    ensures RecordsOf(cs[i := c]) + Records(cs[i]) == RecordsOf(cs) + Records(c)
  {
    assert cs == cs[..i] + [cs[i]] + cs[i + 1..];
    assert cs[i := c] == cs[..i] + [c] + cs[i + 1..];
    RecordsOfAppend(cs[..i] + [cs[i]], cs[i + 1..]);
    RecordsOfAppend(cs[..i], [cs[i]]);
    RecordsOfAppend(cs[..i] + [c], cs[i + 1..]);
    RecordsOfAppend(cs[..i], [c]);
    assert RecordsOf([c]) == Records(c) by { assert [c][1..] == []; }
    assert RecordsOf([cs[i]]) == Records(cs[i]) by { assert [cs[i]][1..] == []; }
  }

  /** Appending under `p` gives the node at `p` the new last child `x`, keeping its id and url. */
  lemma {:induction false} AppendAtShape(n: Node, p: Path, x: Node)
    requires NodeAt(n, p).Some?
    ensures var r := AppendAt(n, p, x);
            var before := NodeAt(n, p).value;
            && NodeAt(r, p) == Some(before.(children := before.children + [x]))
            && NodeAt(r, p + [|before.children|]) == Some(x)
    decreases |p|
  {
    if p != [] {
      var m := |NodeAt(n, p).value.children|;
      AppendAtShape(n.children[p[0]], p[1..], x);
      assert (p + [m])[1..] == p[1..] + [m];
    }
  }

  /** Appending under `p` adds exactly the records of the new subtree. */
  lemma {:induction false} AppendAtRecords(n: Node, p: Path, x: Node)
    requires NodeAt(n, p).Some?
    ensures Records(AppendAt(n, p, x)) == Records(n) + Records(x)
    decreases |p|
  {
    var r := AppendAt(n, p, x);
    if p == [] {
      RecordsOfAppend(n.children, [x]);
      assert RecordsOf([x]) == Records(x) by { assert [x][1..] == []; }
    } else {
      var k := p[0];
      var c := n.children[k];
      AppendAtRecords(c, p[1..], x);
      var c' := AppendAt(c, p[1..], x);
      RecordsOfUpdate(n.children, k, c');
      RecordsCancel(RecordsOf(n.children[k := c']), Records(c), RecordsOf(n.children), Records(c'), Records(x));
      assert r.children == n.children[k := c'];
    }
  }

  /** Taking the same records off both sides of an equation. */
  lemma RecordsCancel(u: multiset<(TabId, Option<string>)>, c: multiset<(TabId, Option<string>)>,
                      cs: multiset<(TabId, Option<string>)>, c': multiset<(TabId, Option<string>)>,
                      x: multiset<(TabId, Option<string>)>)
    requires u + c == cs + c' && c' == c + x
    ensures u == cs + x
  {
    forall e ensures u[e] == (cs + x)[e] {
      assert (u + c)[e] == (cs + c')[e];
    }
  }

  /** Dropping the last child under `p` undoes appending there. */
  lemma {:induction false} AppendAtInverse(n: Node, p: Path, x: Node)
    requires NodeAt(n, p).Some?
    ensures NodeAt(AppendAt(n, p, x), p).Some?
    ensures DropLastAt(AppendAt(n, p, x), p) == n
    decreases |p|
  {
    var r := AppendAt(n, p, x);
    if p == [] {
      assert r.children[..|r.children| - 1] == n.children;
    } else {
      var k := p[0];
      var c' := AppendAt(n.children[k], p[1..], x);
      AppendAtInverse(n.children[k], p[1..], x);
      assert n.children[k := c'][k := DropLastAt(c', p[1..])] == n.children;
    }
  }

  /** Appending under `p` changes no node outside the path from the root to `p`. */
  lemma {:induction false} AppendAtElsewhere(n: Node, p: Path, x: Node, q: Path)
    requires NodeAt(n, p).Some? && NodeAt(n, q).Some? && !(q <= p)
    ensures NodeAt(AppendAt(n, p, x), q) == NodeAt(n, q)
    decreases |p|
  {
    var r := AppendAt(n, p, x);
    if p == [] {
      assert q[0] < |n.children| && r.children[q[0]] == n.children[q[0]];
    } else if q[0] != p[0] {
      assert r.children[q[0]] == n.children[q[0]];
    } else {
      AppendAtElsewhere(n.children[p[0]], p[1..], x, q[1..]);
    }
  }

  /** Appending under `p` keeps the id and url of every node on the way to `p`. */
  lemma {:induction false} AppendAtAncestors(n: Node, p: Path, x: Node, q: Path)
    requires NodeAt(n, p).Some? && q <= p
    ensures NodeAt(n, q).Some? && NodeAt(AppendAt(n, p, x), q).Some?
    ensures NodeAt(AppendAt(n, p, x), q).value.id == NodeAt(n, q).value.id
    ensures NodeAt(AppendAt(n, p, x), q).value.url == NodeAt(n, q).value.url
    decreases |q|
  {
    if q != [] {
      AppendAtAncestors(n.children[p[0]], p[1..], x, q[1..]);
    }
  }

  /** The parent `createNode` picks: the root without a parent id, else the first node with it. */
  function ParentOf(root: Node, parentId: Option<TabId>): (p: Option<Path>)
    ensures p.Some? ==> NodeAt(root, p.value).Some?
  {
    if parentId.None? then Some([])
    else FindIdSound(root, parentId.value); FindId(root, parentId.value)
  }

  class BunnyHole {
    /** The root node; its descendants are the nodes reachable through `children`. */
    var root: Node

    /** `new BunnyHole()`: a root with id `ROOT_ID`, no url and no children. */
    constructor ()
      ensures root == Node(ROOT_ID, None, [])
    {
      root := Node(ROOT_ID, None, []);
    }

    /** `searchById(id)` on the whole tree. */
    method SearchById(id: TabId) returns (found: Option<Path>)
      ensures found == FindId(root, id)
    {
      found := SearchNode(root, id);
    }

    /**
     * `createNode(tabID, tabURL, parentID)`: a new node with that id and url
     * as the last child of the parent; with an unknown parent id nothing
     * changes (the source only logs), and `created` is false.
     */
    method CreateNode(tabId: TabId, tabUrl: Option<string>, parentId: Option<TabId>) returns (created: bool)
      modifies this
      ensures created <==> ParentOf(old(root), parentId).Some?
      ensures !created ==> root == old(root)
      ensures created ==> root == AppendAt(old(root), ParentOf(old(root), parentId).value, Node(tabId, tabUrl, []))
    {
      var parent: Path := [];
      if parentId.Some? {
        var found := SearchById(parentId.value);
        if found.None? {
          return false;
        }
        FindIdSound(root, parentId.value);
        parent := found.value;
      }
      root := AppendAt(root, parent, Node(tabId, tabUrl, []));
      return true;
    }
  }

  /** The parent chosen by `createNode` exists, has the id asked for, and is the first such node. */
  lemma ParentOfFacts(root: Node, parentId: Option<TabId>)
    ensures parentId.None? ==> ParentOf(root, parentId) == Some([])
    ensures parentId.Some? && ParentOf(root, parentId).Some? ==>
              var p := ParentOf(root, parentId).value;
              && NodeAt(root, p).Some? && NodeAt(root, p).value.id == parentId.value
              && forall q :: NodeAt(root, q).Some? && NodeAt(root, q).value.id == parentId.value ==>
                               p == q || HoleTrees.PreBefore(p, q)
    ensures parentId.Some? && ParentOf(root, parentId).None? ==>
              forall q :: NodeAt(root, q).Some? ==> NodeAt(root, q).value.id != parentId.value
  {
    if parentId.Some? {
      FindIdSound(root, parentId.value);
      forall q | NodeAt(root, q).Some? && NodeAt(root, q).value.id == parentId.value
        ensures FindId(root, parentId.value).Some?
        ensures FindId(root, parentId.value).value == q || HoleTrees.PreBefore(FindId(root, parentId.value).value, q)
      {
        FindIdFirst(root, parentId.value, q);
      }
    }
  }

  /**
   * A `createNode` that finds its parent adds exactly one record: the new
   * node is the last child of the parent, every node off the way to the
   * parent is as it was, and dropping the new child gives back the old tree.
   */
  lemma CreateNodeFacts(root: Node, tabId: TabId, tabUrl: Option<string>, parentId: Option<TabId>)
    requires ParentOf(root, parentId).Some?
    ensures var p := ParentOf(root, parentId).value;
            var m := |NodeAt(root, p).value.children|;
            var r := AppendAt(root, p, Node(tabId, tabUrl, []));
            && NodeAt(r, p).Some? && |NodeAt(r, p).value.children| == m + 1
            && NodeAt(r, p + [m]) == Some(Node(tabId, tabUrl, []))
            && Records(r) == Records(root) + multiset{(tabId, tabUrl)}
            && (forall q :: NodeAt(root, q).Some? && !(q <= p) ==> NodeAt(r, q) == NodeAt(root, q))
            && DropLastAt(r, p) == root
  {
    var p := ParentOf(root, parentId).value;
    var x := Node(tabId, tabUrl, []);
    AppendAtShape(root, p, x);
    AppendAtRecords(root, p, x);
    AppendAtInverse(root, p, x);
    forall q | NodeAt(root, q).Some? && !(q <= p)
      ensures NodeAt(AppendAt(root, p, x), q) == NodeAt(root, q)
    {
      AppendAtElsewhere(root, p, x, q);
    }
  }

  /** There is no de-duplication: the same id and url recorded twice under the root is held twice. */
  lemma CreateNodeTwiceKeepsBoth(root: Node, tabId: TabId, tabUrl: Option<string>)
    ensures var x := Node(tabId, tabUrl, []);
            var r := AppendAt(AppendAt(root, [], x), [], x);
            Records(r)[(tabId, tabUrl)] == Records(root)[(tabId, tabUrl)] + 2
  {
    var x := Node(tabId, tabUrl, []);
    AppendAtRecords(root, [], x);
    AppendAtRecords(AppendAt(root, [], x), [], x);
  }
}
