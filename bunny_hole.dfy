/**
 * The class BunnyHole of src/modules/bunny_hole.mjs: a tree of visited
 * pages that the background tracker grows and the sidebar edits by path.
 * The tree is the value `root` (see HoleTrees); every operation replaces
 * it with the tree the source's in-place splices leave behind.
 */
module BunnyHoles {
  import opened Wrappers
  import opened BunnyTabs
  import opened HoleTrees

  /** How a mutator ended. */
  datatype Outcome =
    | Reported   // the tree changed (or was rewritten) and `#reportChange` ran
    | Declined   // an early `return` before any change
    | Threw      // a TypeError (a missing node, a getter-only field) before any change

  /** The node `#addDirectDescendant` makes for a page: its notes fall back to "" (BunnyTab has no notes). */
  function NewNode(tab: BunnyTab, key: int): (n: Node)
    ensures Mirrored(n) && n.children == []
    ensures Entries(n) == multiset{Entry(tab, tab.title, tab.url, ROOT_NODE_NOTES, key)}
  {
    Node(tab, JsObj(tab.title, tab.url, ROOT_NODE_NOTES, key, []), [])
  }

  /** No two nodes record the same url. */
  ghost predicate UniqueUrls(n: Node)
  {
    && (forall e :: e in Entries(n) ==> Entries(n)[e] == 1)
    && forall e1, e2 :: e1 in Entries(n) && e2 in Entries(n) && e1.tab.url == e2.tab.url ==> e1 == e2
  }

  /** The node a `createNode` call appends under: the first match for `parentUrl`, or else the root. */
  function CreateParent(root: Node, parentUrl: Option<string>): (p: Path)
    ensures ValidPath(root, p)
  {
    FindSound(root, OrElse(parentUrl, ""));
    if parentUrl.Some? && Find(root, parentUrl.value).Some? then Find(root, parentUrl.value).value else []
  }

  /** The parent path `placeNode` inserts under: the path without its last index. */
  function PlaceParent(path: Path): Path
  {
    if path == [] then [] else path[..|path| - 1]
  }

  /** The index `placeNode` inserts at: one past the addressed node with `after`, otherwise 0. */
  function PlaceIndex(path: Path, after: bool): nat
  {
    if path != [] && after then path[|path| - 1] + 1 else 0
  }

  /** The page's notes replaced in `#obj`. */
  function WithNotes(n: Node, notes: string): Node
  {
    n.(obj := n.obj.(notes := notes))
  }

  /** `#search(url, node => node.#tab.url)` on the subtree at `n`, with its loop over the children. */
  method Search(n: Node, url: string) returns (found: Option<Path>)
    ensures found == Find(n, url)
    decreases n
  {
    if n.tab.url == url {
      return Some([]);
    }
    for i := 0 to |n.children|
      invariant FindIn(n.children, 0, url) == FindIn(n.children, i, url)
    {
      var result := Search(n.children[i], url);
      if result.Some? {
        return Some([i] + result.value);
      }
    }
    return None;
  }

  /** The check at the head of `repositionNode`: whether `dstPath` lies inside the subtree at `srcPath`. */
  method DstIsDescendant(srcPath: Path, dstPath: Path) returns (isDescendant: bool)
    ensures isDescendant <==> srcPath <= dstPath
  {
    isDescendant := false;
    if |dstPath| >= |srcPath| {
      isDescendant := true;
      var i := 0;
      while i < |srcPath|
        invariant 0 <= i <= |srcPath|
        invariant srcPath[..i] == dstPath[..i]
      {
        if srcPath[i] != dstPath[i] {
          isDescendant := false;
          break;
        }
        i := i + 1;
      }
    }
  }

  /**
   * The walk of `deleteNode` down to the parent of the addressed node;
   * `None` where a step reaches a missing child, which the source then
   * dereferences and throws on.
   */
  method DeleteParent(root: Node, path: Path) returns (parent: Option<Node>)
    ensures parent == NodeAt(root, PlaceParent(path))
  {
    var node := root;
    var i := 0;
    while i + 1 < |path|
      invariant 0 <= i <= |PlaceParent(path)|
      invariant NodeAt(root, path[..i]) == Some(node)
    {
      NodeAtAppend(root, path[..i], [path[i]]);
      assert path[..i + 1] == path[..i] + [path[i]];
      if path[i] >= |node.children| {
        NodeAtAppend(root, path[..i + 1], PlaceParent(path)[i + 1..]);
        assert path[..i + 1] + PlaceParent(path)[i + 1..] == PlaceParent(path);
        return None;
      }
      node := node.children[path[i]];
      i := i + 1;
    }
    assert path[..i] == PlaceParent(path);
    return Some(node);
  }

  class BunnyHole {
    /** The whole tree: the root's `#tab`, `#obj` and `#children`, recursively. */
    var root: Node
    /** The static counter `BunnyHole.#reactKey`: the key the next new node takes. */
    var reactKey: int
    /** Every tree handed to `#reportChange` (stored and sent to the sidebar), oldest first. */
    ghost var reports: seq<JsObj>

    ghost predicate Valid()
      reads this
    {
      Mirrored(root) && KeysBelow(root, reactKey)
    }

    /** `new BunnyHole()`: the counter reset to 1, a root alone, keyed 1. */
    constructor ()
      ensures Valid()
      ensures root.obj == JsObj(ROOT_NODE_TITLE, ROOT_NODE_URL, ROOT_NODE_NOTES, 1, [])
      ensures root.children == []
      ensures root.tab.id == TabText(ROOT_NODE_TITLE) && root.tab.title == ROOT_NODE_URL && root.tab.url == ""
      ensures reactKey == 2 && reports == []
    {
      var obj := JsObj(ROOT_NODE_TITLE, ROOT_NODE_URL, ROOT_NODE_NOTES, 1, []);
      reactKey := 2;
      root := Node(NewTab(TabText(obj.title), obj.url, obj.notes), obj, []);
      reports := [];
    }

    /** `new BunnyHole(jsObj)`, with `counter` the static counter beforehand. */
    constructor Load(stored: PlainObj, counter: int)
      ensures Valid()
      ensures root == LoadNode(stored, counter).0 && reactKey == LoadNode(stored, counter).1
      ensures reports == []
    {
      LoadNodeFacts(stored, counter);
      root := LoadNode(stored, counter).0;
      reactKey := LoadNode(stored, counter).1;
      reports := [];
    }

    /** The `jsObject` getter. */
    function JsObject(): JsObj
      reads this
    {
      root.obj
    }

    /** `#createJsObject(title, url)`: a childless record keyed `reactKey++`. */
    method CreateJsObject(title: string, url: string) returns (o: JsObj)
      modifies this
      ensures o == JsObj(title, url, ROOT_NODE_NOTES, old(reactKey), [])
      ensures reactKey == old(reactKey) + 1
      ensures root == old(root) && reports == old(reports)
    {
      o := JsObj(title, url, ROOT_NODE_NOTES, reactKey, []);
      reactKey := reactKey + 1;
    }

    /** `#addDirectDescendant(bunnyTab, [], index)` on the node at `parent`; `None` appends. */
    method AddDirectDescendant(parent: Path, tab: BunnyTab, index: Option<nat>)
      requires Valid() && ValidPath(root, parent)
      modifies this
      ensures Valid()
      ensures root == InsertAt(old(root), parent,
                               OrElse(index, |NodeAt(old(root), parent).value.children|),
                               NewNode(tab, old(reactKey)))
      ensures reactKey == old(reactKey) + 1 && reports == old(reports)
    {
      var obj := CreateJsObject(tab.title, tab.url);
      var node := Node(tab, obj, []);
      assert node == NewNode(tab, old(reactKey));
      var i := if index.Some? then index.value else |NodeAt(root, parent).value.children|;
      InsertAtFacts(root, parent, i, node);
      root := InsertAt(root, parent, i, node);
    }

    /** `#reportChange()`: the current tree goes to storage and to the sidebar. */
    method ReportChange()
      modifies this
      ensures reports == old(reports) + [root.obj]
      ensures root == old(root) && reactKey == old(reactKey)
    {
      reports := reports + [root.obj];
    }

    /** `searchByUrl(url)`: the path of the first node, in pre-order, recording `url`. */
    method SearchByUrl(url: string) returns (found: Option<Path>)
      ensures found == Find(root, url)
    {
      found := Search(root, url);
    }

    /**
     * `createNode(bunnyTab, parentUrl)`: nothing when a node already
     * records the url; otherwise a new last child of the first node
     * recording `parentUrl`, or of the root when there is none.
     */
    method CreateNode(tab: BunnyTab, parentUrl: Option<string>) returns (outcome: Outcome)
      requires Valid()
      modifies this
      ensures Valid()
      ensures outcome != Threw
      ensures outcome == Declined <==> HasUrl(old(root), tab.url)
      ensures outcome == Declined ==> root == old(root) && reactKey == old(reactKey) && reports == old(reports)
      ensures outcome == Reported ==>
                var p := CreateParent(old(root), parentUrl);
                && root == InsertAt(old(root), p, |NodeAt(old(root), p).value.children|, NewNode(tab, old(reactKey)))
                && reactKey == old(reactKey) + 1
                && reports == old(reports) + [root.obj]
      ensures HasUrl(root, tab.url)
      ensures UniqueUrls(old(root)) ==> UniqueUrls(root)
    {
      FindNoneIffAbsent(root, tab.url);
      var existing := SearchByUrl(tab.url);
      if existing.Some? {
        return Declined;
      }
      var parent: Path := [];
      if parentUrl.Some? {
        var found := SearchByUrl(parentUrl.value);
        if found.Some? {
          parent := found.value;
        }
      }
      assert parent == CreateParent(root, parentUrl);
      ghost var before := root;
      AddDirectDescendant(parent, tab, None);
      CreateNodeKeepsUrlsUnique(before, parent, tab, old(reactKey));
      CreateNodeFacts(before, tab, parentUrl, old(reactKey));
      ReportChange();
      return Reported;
    }

    /**
     * `placeNode(bunnyTab, pathToNode, after)`: nothing when a node already
     * records the url; otherwise a new child of the node at the path's
     * prefix, at `PlaceIndex`.
     */
    method PlaceNode(tab: BunnyTab, pathToNode: Path, after: bool) returns (outcome: Outcome)
      requires Valid()
      modifies this
      ensures Valid()
      ensures outcome == Declined <==> HasUrl(old(root), tab.url)
      ensures outcome == Threw <==> !HasUrl(old(root), tab.url) && !ValidPath(old(root), PlaceParent(pathToNode))
      ensures outcome != Reported ==> root == old(root) && reactKey == old(reactKey) && reports == old(reports)
      ensures outcome == Reported ==>
                && root == InsertAt(old(root), PlaceParent(pathToNode), PlaceIndex(pathToNode, after), NewNode(tab, old(reactKey)))
                && reactKey == old(reactKey) + 1
                && reports == old(reports) + [root.obj]
    {
      FindNoneIffAbsent(root, tab.url);
      var existing := SearchByUrl(tab.url);
      if existing.Some? {
        return Declined;
      }
      var parent := PlaceParent(pathToNode);
      if !ValidPath(root, parent) {
        return Threw;
      }
      AddDirectDescendant(parent, tab, Some(PlaceIndex(pathToNode, after)));
      ReportChange();
      return Reported;
    }

    /**
     * `editNode(pathToNode, title, url, notes)`: a title or a url cannot be
     * assigned to the page record, whose fields have getters only, so
     * either throws; notes alone are written into `#obj`.
     */
    method EditNode(pathToNode: Path, title: Option<string>, url: Option<string>, notes: Option<string>)
      returns (outcome: Outcome)
      requires Valid()
      modifies this
      ensures Valid()
      ensures outcome != Declined
      ensures outcome == Threw <==> !ValidPath(old(root), pathToNode) || title.Some? || url.Some?
      ensures outcome == Threw ==> root == old(root) && reactKey == old(reactKey) && reports == old(reports)
      ensures outcome == Reported ==>
                && root == (if notes.Some?
                            then ReplaceAt(old(root), pathToNode, WithNotes(NodeAt(old(root), pathToNode).value, notes.value))
                            else old(root))
                && reactKey == old(reactKey)
                && reports == old(reports) + [root.obj]
    {
      var node := NodeAt(root, pathToNode);
      if node.None? || title.Some? || url.Some? {
        return Threw;
      }
      if notes.Some? {
        EditNotesFacts(root, pathToNode, notes.value);
        EditNotesKeys(root, pathToNode, notes.value, reactKey);
        root := ReplaceAt(root, pathToNode, WithNotes(node.value, notes.value));
      }
      ReportChange();
      return Reported;
    }

    /**
     * `deleteNode(pathToNode)`: the addressed child, with its subtree, out
     * of both child lists of its parent; an index past the end removes
     * nothing but still reports.
     */
    method DeleteNode(pathToNode: Path) returns (outcome: Outcome)
      requires Valid()
      modifies this
      ensures Valid()
      ensures outcome == Declined <==> pathToNode == []
      ensures outcome == Threw <==> pathToNode != [] && !ValidPath(old(root), PlaceParent(pathToNode))
      ensures outcome != Reported ==> root == old(root) && reactKey == old(reactKey) && reports == old(reports)
      ensures outcome == Reported ==>
                && root == RemoveAt(old(root), PlaceParent(pathToNode), pathToNode[|pathToNode| - 1])
                && reactKey == old(reactKey)
                && reports == old(reports) + [root.obj]
    {
      if |pathToNode| == 0 {
        return Declined;
      }
      var deleteParent := DeleteParent(root, pathToNode);
      if deleteParent.None? {
        return Threw;
      }
      var parent, index := PlaceParent(pathToNode), pathToNode[|pathToNode| - 1];
      RemoveAtFacts(root, parent, index);
      RemoveAtKeys(root, parent, index, reactKey);
      root := RemoveAt(root, parent, index);
      ReportChange();
      return Reported;
    }

    /**
     * `repositionNode(srcPath, dstPath, after)`: refused when the
     * destination lies inside the source subtree (the root included) or
     * is the root; otherwise the source subtree moves next to the
     * destination.
     */
    method RepositionNode(srcPath: Path, dstPath: Path, after: bool) returns (outcome: Outcome)
      requires Valid()
      modifies this
      ensures Valid()
      ensures outcome == Declined <==> srcPath <= dstPath || dstPath == []
      ensures outcome == Threw <==>
                !(srcPath <= dstPath) && dstPath != [] && !(ValidPath(old(root), srcPath) && ValidPath(old(root), dstPath))
      ensures outcome != Reported ==> root == old(root) && reactKey == old(reactKey) && reports == old(reports)
      ensures outcome == Reported ==>
                && root == Repositioned(old(root), srcPath, dstPath, after)
                && reactKey == old(reactKey)
                && reports == old(reports) + [root.obj]
    {
      var dstIsDescendant := DstIsDescendant(srcPath, dstPath);
      if dstIsDescendant {
        return Declined;
      }
      // An empty source path is a prefix of every path, so the root check of the source never fires here.
      if |dstPath| == 0 {
        return Declined;
      }
      if !ValidPath(root, srcPath) || !ValidPath(root, dstPath) {
        return Threw;
      }
      var sp, k := srcPath[..|srcPath| - 1], srcPath[|srcPath| - 1];
      assert srcPath == sp + [k];
      MoveChildKeeps(root, sp, k, dstPath, after);
      root := Repositioned(root, srcPath, dstPath, after);
      ReportChange();
      return Reported;
    }
  }

  // ---------------------------------------------------------------------------
  // What the mutators do to the tree

  lemma CreateNodeKeepsUrlsUnique(root: Node, parent: Path, tab: BunnyTab, key: int)
    requires Mirrored(root) && ValidPath(root, parent) && !HasUrl(root, tab.url)
    ensures var r := InsertAt(root, parent, |NodeAt(root, parent).value.children|, NewNode(tab, key));
            UniqueUrls(root) ==> UniqueUrls(r)
  {
    InsertAtFacts(root, parent, |NodeAt(root, parent).value.children|, NewNode(tab, key));
  }

  lemma EditNotesFacts(root: Node, path: Path, notes: string)
    requires Mirrored(root) && ValidPath(root, path)
    ensures var n := NodeAt(root, path).value;
            var r := ReplaceAt(root, path, WithNotes(n, notes));
            && Mirrored(r)
            && NodeAt(r, path) == Some(WithNotes(n, notes))
            && Entries(r) + multiset{EntryOf(n)} == Entries(root) + multiset{EntryOf(n).(notes := notes)}
            && ReplaceAt(r, path, n) == root
            && forall k | 0 <= k < |path| ::
                 && ValidPath(root, path[..k]) && ValidPath(r, path[..k])
                 && EntryOf(NodeAt(r, path[..k]).value) == EntryOf(NodeAt(root, path[..k]).value)
  {
    var n := NodeAt(root, path).value;
    forall k | 0 <= k < |path|
      ensures && ValidPath(root, path[..k]) && ValidPath(ReplaceAt(root, path, WithNotes(n, notes)), path[..k])
              && EntryOf(NodeAt(ReplaceAt(root, path, WithNotes(n, notes)), path[..k]).value)
                 == EntryOf(NodeAt(root, path[..k]).value)
    {
      ReplaceAtAbove(root, path, WithNotes(n, notes), k);
    }
    MirroredAt(root, path);
    ReplaceAtMirrored(root, path, WithNotes(n, notes));
    ReplaceAtHere(root, path, WithNotes(n, notes));
    ReplaceAtEntries(root, path, WithNotes(n, notes));
    ReplaceAtTwice(root, path, WithNotes(n, notes), n);
    ReplaceAtSame(root, path);
    var r := ReplaceAt(root, path, WithNotes(n, notes));
    assert Entries(WithNotes(n, notes)) == multiset{EntryOf(n).(notes := notes)} + EntriesOf(n.children);
    forall e ensures (Entries(r) + multiset{EntryOf(n)})[e] == (Entries(root) + multiset{EntryOf(n).(notes := notes)})[e] {
      assert (Entries(r) + Entries(n))[e] == (Entries(root) + Entries(WithNotes(n, notes)))[e];
    }
  }

  lemma EditNotesKeys(root: Node, path: Path, notes: string, bound: int)
    requires Mirrored(root) && ValidPath(root, path) && KeysBelow(root, bound)
    ensures KeysBelow(ReplaceAt(root, path, WithNotes(NodeAt(root, path).value, notes)), bound)
  {
    var n := NodeAt(root, path).value;
    EditNotesFacts(root, path, notes);
    EntryAtPathIn(root, path);
    var r := ReplaceAt(root, path, WithNotes(n, notes));
    forall e | e in Entries(r) ensures e.reactKey < bound {
      assert e in Entries(r) + multiset{EntryOf(n)};
    }
  }

  lemma RemoveAtKeys(root: Node, parent: Path, i: nat, bound: int)
    requires Mirrored(root) && ValidPath(root, parent) && KeysBelow(root, bound)
    ensures KeysBelow(RemoveAt(root, parent, i), bound)
  {
    RemoveAtFacts(root, parent, i);
  }

  /**
   * The parent `createNode` picks: the first node in pre-order recording
   * `parentUrl` when there is one, and the root otherwise.
   */
  lemma CreateParentFacts(root: Node, parentUrl: Option<string>)
    ensures var p := CreateParent(root, parentUrl);
            && (parentUrl.None? || !HasUrl(root, parentUrl.value) ==> p == [])
            && (parentUrl.Some? && HasUrl(root, parentUrl.value) ==>
                  && NodeAt(root, p).value.tab.url == parentUrl.value
                  && forall q :: ValidPath(root, q) && NodeAt(root, q).value.tab.url == parentUrl.value ==>
                                   p == q || PreBefore(p, q))
  {
    if parentUrl.Some? {
      var u := parentUrl.value;
      FindNoneIffAbsent(root, u);
      FindSound(root, u);
      forall q | ValidPath(root, q) && NodeAt(root, q).value.tab.url == u
        ensures CreateParent(root, parentUrl) == q || PreBefore(CreateParent(root, parentUrl), q)
      {
        FindFirst(root, u, q);
      }
    }
  }

  /**
   * A `createNode` that inserts adds exactly one record, as the new last
   * child of the chosen parent; taking that child away again gives back
   * the old tree, and the url is now present, so a repeated call is
   * declined.
   */
  lemma CreateNodeFacts(root: Node, tab: BunnyTab, parentUrl: Option<string>, key: int)
    requires Mirrored(root) && !HasUrl(root, tab.url)
    ensures var p := CreateParent(root, parentUrl);
            var m := |NodeAt(root, p).value.children|;
            var r := InsertAt(root, p, m, NewNode(tab, key));
            && Mirrored(r)
            && ValidPath(r, p) && |NodeAt(r, p).value.children| == m + 1
            && NodeAt(r, p + [m]) == Some(NewNode(tab, key))
            && Entries(r) == Entries(root) + multiset{Entry(tab, tab.title, tab.url, ROOT_NODE_NOTES, key)}
            && RemoveAt(r, p, m) == root
            && HasUrl(r, tab.url)
  {
    var p := CreateParent(root, parentUrl);
    var m := |NodeAt(root, p).value.children|;
    InsertAtFacts(root, p, m, NewNode(tab, key));
    var r := InsertAt(root, p, m, NewNode(tab, key));
    assert Entry(tab, tab.title, tab.url, ROOT_NODE_NOTES, key) in Entries(r);
  }

  /**
   * A `placeNode` that inserts adds exactly one record; without `after`
   * (or for the empty path) it becomes the parent's first child.
   */
  lemma {:induction false} PlaceNodeFacts(root: Node, path: Path, after: bool, tab: BunnyTab, key: int)
    requires Mirrored(root) && ValidPath(root, PlaceParent(path))
    ensures var r := InsertAt(root, PlaceParent(path), PlaceIndex(path, after), NewNode(tab, key));
            && Mirrored(r)
            && Entries(r) == Entries(root) + multiset{Entry(tab, tab.title, tab.url, ROOT_NODE_NOTES, key)}
            && (!after || path == [] ==> NodeAt(r, PlaceParent(path) + [0]) == Some(NewNode(tab, key)))
  {
    InsertAtFacts(root, PlaceParent(path), PlaceIndex(path, after), NewNode(tab, key));
  }

  /** With `after`, the new node lands right after the addressed node, which stays where it was. */
  lemma {:induction false} PlaceNodeAfter(root: Node, path: Path, tab: BunnyTab, key: int)
    requires Mirrored(root) && path != [] && ValidPath(root, path)
    ensures ValidPath(root, PlaceParent(path))
    ensures var r := InsertAt(root, PlaceParent(path), PlaceIndex(path, true), NewNode(tab, key));
            && NodeAt(r, PlaceParent(path) + [path[|path| - 1] + 1]) == Some(NewNode(tab, key))
            && NodeAt(r, path) == NodeAt(root, path)
  {
    var pp, last := path[..|path| - 1], path[|path| - 1];
    assert path == pp + [last];
    NodeAtAppend(root, pp, [last]);
    InsertAtShape(root, pp, last + 1, NewNode(tab, key));
    var r := InsertAt(root, pp, last + 1, NewNode(tab, key));
    NodeAtAppend(r, pp, [last]);
  }
}
