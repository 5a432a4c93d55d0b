/**
 * The tree behind class BunnyHole (src/modules/bunny_hole.mjs), as values.
 * Each node holds its page record `#tab`, its serialisable mirror `#obj`
 * (`{title, url, notes, reactKey, children}`) and its child nodes
 * `#children`; a node's `#parent` is the node one step up its path. In the
 * source `#obj.children[i]` is the very object `#children[i].#obj`, so a
 * change below a node shows through every ancestor's `#obj`; here that
 * sharing is rebuilt explicitly along the path of every change, and
 * `Mirrored` is the invariant that the two child lists agree.
 */
module HoleTrees {
  import opened Wrappers
  import opened BunnyTabs

  /** Child indices from the root; [] is the root itself. */
  type Path = seq<nat>

  /** The serialised node `#obj`, as persisted and sent to the sidebar. */
  datatype JsObj = JsObj(title: string, url: string, notes: string, reactKey: int, children: seq<JsObj>)

  /** One node: `#tab`, `#obj` and `#children`. */
  datatype Node = Node(tab: BunnyTab, obj: JsObj, children: seq<Node>)

  /** What a node holds apart from its children. */
  datatype Entry = Entry(tab: BunnyTab, title: string, url: string, notes: string, reactKey: int)

  function EntryOf(n: Node): Entry
  {
    Entry(n.tab, n.obj.title, n.obj.url, n.obj.notes, n.obj.reactKey)
  }

  /** The records of all nodes of the tree, with multiplicity. */
  function Entries(n: Node): multiset<Entry>
  {
    multiset{EntryOf(n)} + EntriesOf(n.children)
  }

  function EntriesOf(cs: seq<Node>): multiset<Entry>
  {
    if cs == [] then multiset{} else Entries(cs[0]) + EntriesOf(cs[1..])
  }

  /** `#obj.children[i] == #children[i].#obj` for every i, at every node. */
  ghost predicate Mirrored(n: Node)
  {
    && |n.obj.children| == |n.children|
    && forall i :: 0 <= i < |n.children| ==> n.obj.children[i] == n.children[i].obj && Mirrored(n.children[i])
  }

  /** `#getNode(path)`; `None` where the source dereferences a missing child and throws. */
  function NodeAt(n: Node, p: Path): Option<Node>
    decreases |p|
  {
    if p == [] then Some(n)
    else if p[0] < |n.children| then NodeAt(n.children[p[0]], p[1..])
    else None
  }

  predicate ValidPath(n: Node, p: Path)
  {
    NodeAt(n, p).Some?
  }

  /** Child i replaced, in both child lists. */
  function WithChild(n: Node, i: nat, c: Node): Node
    requires i < |n.children|
  {
    Node(n.tab,
         n.obj.(children := if i < |n.obj.children| then n.obj.children[i := c.obj] else n.obj.children),
         n.children[i := c])
  }

  /** The node at `p` replaced by `s`, every ancestor's `#obj` seeing the change. */
  function ReplaceAt(n: Node, p: Path, s: Node): Node
    requires ValidPath(n, p)
    decreases |p|
  {
    if p == [] then s
    else WithChild(n, p[0], ReplaceAt(n.children[p[0]], p[1..], s))
  }

  /** `splice(i, 0, x)` on `#children` and `x.#obj` on `#obj.children`; an index past the end appends. */
  function InsertChild(n: Node, i: nat, x: Node): Node
  {
    var k := if i <= |n.children| then i else |n.children|;
    var ko := if i <= |n.obj.children| then i else |n.obj.children|;
    Node(n.tab,
         n.obj.(children := n.obj.children[..ko] + [x.obj] + n.obj.children[ko..]),
         n.children[..k] + [x] + n.children[k..])
  }

  /** `splice(i, 1)` on both child lists; an index past the end removes nothing. */
  function RemoveChild(n: Node, i: nat): Node
  {
    Node(n.tab,
         n.obj.(children := if i < |n.obj.children| then n.obj.children[..i] + n.obj.children[i + 1..] else n.obj.children),
         if i < |n.children| then n.children[..i] + n.children[i + 1..] else n.children)
  }

  /** Insert `x` among the children of the node at `parent`, at index i. */
  function InsertAt(root: Node, parent: Path, i: nat, x: Node): Node
    requires ValidPath(root, parent)
  {
    ReplaceAt(root, parent, InsertChild(NodeAt(root, parent).value, i, x))
  }

  /** Remove child i (with its subtree) of the node at `parent`. */
  function RemoveAt(root: Node, parent: Path, i: nat): Node
    requires ValidPath(root, parent)
  {
    ReplaceAt(root, parent, RemoveChild(NodeAt(root, parent).value, i))
  }

  // ---------------------------------------------------------------------------
  // Paths

  /** Following `p` then `q` is following `p + q`. */
  lemma {:induction false} NodeAtAppend(n: Node, p: Path, q: Path)
    ensures NodeAt(n, p + q) == if NodeAt(n, p).None? then None else NodeAt(NodeAt(n, p).value, q)
    decreases |p|
  {
    if p != [] {
      assert (p + q)[0] == p[0] && (p + q)[1..] == p[1..] + q;
      if p[0] < |n.children| {
        NodeAtAppend(n.children[p[0]], p[1..], q);
      }
    } else {
      assert p + q == q;
    }
  }

  /** After the replacement, the replaced position holds the new node. */
  lemma {:induction false} ReplaceAtHere(n: Node, p: Path, s: Node)
    requires ValidPath(n, p)
    ensures NodeAt(ReplaceAt(n, p, s), p) == Some(s)
    decreases |p|
  {
    if p != [] {
      ReplaceAtHere(n.children[p[0]], p[1..], s);
    }
  }

  /** Below the replaced position, the tree is the new node's. */
  lemma ReplaceAtBelow(n: Node, p: Path, s: Node, q: Path)
    requires ValidPath(n, p)
    ensures NodeAt(ReplaceAt(n, p, s), p + q) == NodeAt(s, q)
  {
    ReplaceAtHere(n, p, s);
    NodeAtAppend(ReplaceAt(n, p, s), p, q);
  }

  /** Paths that part from `p` before its end lead to the same nodes as before. */
  lemma {:induction false} ReplaceAtElsewhere(n: Node, p: Path, s: Node, q: Path, k: nat)
    requires ValidPath(n, p)
    requires k < |p| && k < |q| && p[..k] == q[..k] && p[k] != q[k]
    ensures NodeAt(ReplaceAt(n, p, s), q) == NodeAt(n, q)
    decreases k
  {
    var c := ReplaceAt(n.children[p[0]], p[1..], s);
    if k == 0 {
    } else {
      assert p[0] == q[0] by { assert p[..k][0] == q[..k][0]; }
      if q[0] < |n.children| {
        assert p[1..][..k - 1] == q[1..][..k - 1] by {
          assert p[1..][..k - 1] == p[..k][1..];
          assert q[1..][..k - 1] == q[..k][1..];
        }
        ReplaceAtElsewhere(n.children[p[0]], p[1..], s, q[1..], k - 1);
      }
    }
  }

  /**
   * Writing a node keeps the record of every strict ancestor, whatever the
   * new node holds; the written position itself keeps its record when the
   * new node does.
   */
  lemma {:induction false} ReplaceAtAbove(n: Node, p: Path, s: Node, k: nat)
    requires ValidPath(n, p) && k <= |p|
    requires k == |p| ==> EntryOf(s) == EntryOf(NodeAt(n, p).value)
    ensures ValidPath(n, p[..k])
    ensures ValidPath(ReplaceAt(n, p, s), p[..k])
    ensures EntryOf(NodeAt(ReplaceAt(n, p, s), p[..k]).value) == EntryOf(NodeAt(n, p[..k]).value)
    decreases |p|
  {
    if k == |p| {
      assert p[..k] == p;
      ReplaceAtHere(n, p, s);
    } else if k > 0 {
      ReplaceAtAbove(n.children[p[0]], p[1..], s, k - 1);
      assert p[..k][1..] == p[1..][..k - 1];
    }
  }

  /** Writing twice at one position keeps the last write. */
  lemma {:induction false} ReplaceAtTwice(n: Node, p: Path, s: Node, t: Node)
    requires ValidPath(n, p)
    ensures ValidPath(ReplaceAt(n, p, s), p)
    ensures ReplaceAt(ReplaceAt(n, p, s), p, t) == ReplaceAt(n, p, t)
    decreases |p|
  {
    ReplaceAtHere(n, p, s);
    if p != [] {
      ReplaceAtTwice(n.children[p[0]], p[1..], s, t);
    }
  }

  /** Writing back what is there changes nothing, given the mirror invariant. */
  lemma {:induction false} ReplaceAtSame(n: Node, p: Path)
    requires Mirrored(n) && ValidPath(n, p)
    ensures ReplaceAt(n, p, NodeAt(n, p).value) == n
    decreases |p|
  {
    if p != [] {
      ReplaceAtSame(n.children[p[0]], p[1..]);
      assert n.obj.children[p[0] := n.children[p[0]].obj] == n.obj.children;
      assert n.children[p[0] := n.children[p[0]]] == n.children;
    }
  }

  /** The replacement keeps the mirror invariant. */
  lemma {:induction false} ReplaceAtMirrored(n: Node, p: Path, s: Node)
    requires Mirrored(n) && Mirrored(s) && ValidPath(n, p)
    ensures Mirrored(ReplaceAt(n, p, s))
    decreases |p|
  {
    if p != [] {
      ReplaceAtMirrored(n.children[p[0]], p[1..], s);
    }
  }

  // ---------------------------------------------------------------------------
  // Node records

  lemma {:induction false} EntriesOfAppend(a: seq<Node>, b: seq<Node>)
    ensures EntriesOf(a + b) == EntriesOf(a) + EntriesOf(b)
  {
    if a != [] {
      assert (a + b)[0] == a[0] && (a + b)[1..] == a[1..] + b;
      EntriesOfAppend(a[1..], b);
    } else {
      assert a + b == b;
    }
  }

  lemma EntriesOfUpdate(cs: seq<Node>, i: nat, c: Node)
    requires i < |cs|
    ensures EntriesOf(cs[i := c]) + Entries(cs[i]) == EntriesOf(cs) + Entries(c)
  {
    assert cs == cs[..i] + [cs[i]] + cs[i + 1..];
    assert cs[i := c] == cs[..i] + [c] + cs[i + 1..];
    EntriesOfAppend(cs[..i] + [cs[i]], cs[i + 1..]);
    EntriesOfAppend(cs[..i], [cs[i]]);
    EntriesOfAppend(cs[..i] + [c], cs[i + 1..]);
    EntriesOfAppend(cs[..i], [c]);
    assert EntriesOf([c]) == Entries(c) by { assert [c][1..] == []; }
    assert EntriesOf([cs[i]]) == Entries(cs[i]) by { assert [cs[i]][1..] == []; }
  }

  lemma MultisetChain(n': multiset<Entry>, ci: multiset<Entry>, n: multiset<Entry>, c: multiset<Entry>,
                      a: multiset<Entry>, s: multiset<Entry>)
    requires n' + ci == n + c
    requires c + a == ci + s
    ensures n' + a == n + s
  {
    forall x ensures (n' + a)[x] == (n + s)[x] {
      assert (n' + ci)[x] == (n + c)[x];
      assert (c + a)[x] == (ci + s)[x];
    }
  }

  lemma WithChildEntries(n: Node, i: nat, c: Node)
    requires i < |n.children|
    ensures Entries(WithChild(n, i, c)) + Entries(n.children[i]) == Entries(n) + Entries(c)
  {
    var w := WithChild(n, i, c);
    EntriesOfUpdate(n.children, i, c);
    assert EntryOf(w) == EntryOf(n);
    assert Entries(w) == multiset{EntryOf(n)} + EntriesOf(n.children[i := c]);
    MultisetAddFront(multiset{EntryOf(n)}, EntriesOf(n.children[i := c]), Entries(n.children[i]),
                     EntriesOf(n.children), Entries(c));
  }

  /** Adding the same records in front of both sides of an equation. */
  lemma MultisetAddFront(e: multiset<Entry>, u: multiset<Entry>, ci: multiset<Entry>,
                         cs: multiset<Entry>, c: multiset<Entry>)
    requires u + ci == cs + c
    ensures (e + u) + ci == (e + cs) + c
  {
    forall x ensures ((e + u) + ci)[x] == ((e + cs) + c)[x] {
      assert (u + ci)[x] == (cs + c)[x];
    }
  }

  /** Replacing a subtree swaps its records for the new subtree's. */
  lemma {:induction false} ReplaceAtEntries(n: Node, p: Path, s: Node)
    requires ValidPath(n, p)
    ensures Entries(ReplaceAt(n, p, s)) + Entries(NodeAt(n, p).value) == Entries(n) + Entries(s)
    decreases |p|
  {
    if p != [] {
      var i := p[0];
      var c := ReplaceAt(n.children[i], p[1..], s);
      ReplaceAtEntries(n.children[i], p[1..], s);
      WithChildEntries(n, i, c);
      MultisetChain(Entries(ReplaceAt(n, p, s)), Entries(n.children[i]), Entries(n), Entries(c),
                    Entries(NodeAt(n, p).value), Entries(s));
    }
  }

  /** A node reached by a path contributes its record to the tree's records. */
  lemma {:induction false} EntryAtPathIn(n: Node, p: Path)
    requires ValidPath(n, p)
    ensures EntryOf(NodeAt(n, p).value) in Entries(n)
    ensures Entries(NodeAt(n, p).value) <= Entries(n)
    decreases |p|
  {
    if p != [] {
      var i := p[0];
      EntryAtPathIn(n.children[i], p[1..]);
      ChildEntriesIn(n.children, i);
    }
  }

  lemma {:induction false} ChildEntriesIn(cs: seq<Node>, i: nat)
    requires i < |cs|
    ensures Entries(cs[i]) <= EntriesOf(cs)
  {
    if i > 0 {
      ChildEntriesIn(cs[1..], i - 1);
    }
  }

  /** Every record of the tree belongs to a node some path reaches. */
  lemma {:induction false} EntryHasPath(n: Node, e: Entry) returns (p: Path)
    requires e in Entries(n)
    ensures ValidPath(n, p) && EntryOf(NodeAt(n, p).value) == e
  {
    if e == EntryOf(n) {
      p := [];
    } else {
      var i := ChildHolding(n.children, e);
      var q := EntryHasPath(n.children[i], e);
      p := [i] + q;
      assert p[1..] == q;
    }
  }

  lemma {:induction false} ChildHolding(cs: seq<Node>, e: Entry) returns (i: nat)
    requires e in EntriesOf(cs)
    ensures i < |cs| && e in Entries(cs[i])
  {
    if e in Entries(cs[0]) {
      i := 0;
    } else {
      var j := ChildHolding(cs[1..], e);
      i := j + 1;
    }
  }

  // ---------------------------------------------------------------------------
  // Splicing one child list

  lemma {:induction false} InsertChildFacts(n: Node, i: nat, x: Node)
    requires Mirrored(n) && Mirrored(x)
    ensures Mirrored(InsertChild(n, i, x))
    ensures EntryOf(InsertChild(n, i, x)) == EntryOf(n)
    ensures Entries(InsertChild(n, i, x)) == Entries(n) + Entries(x)
    ensures RemoveChild(InsertChild(n, i, x), if i <= |n.children| then i else |n.children|) == n
  {
    InsertChildMirrored(n, i, x);
    InsertChildEntries(n, i, x);
    InsertChildInverse(n, i, x);
  }

  lemma {:induction false} InsertChildMirrored(n: Node, i: nat, x: Node)
    requires Mirrored(n) && Mirrored(x)
    ensures Mirrored(InsertChild(n, i, x))
  {
    var k := if i <= |n.children| then i else |n.children|;
    var m := InsertChild(n, i, x);
    forall j | 0 <= j < |m.children|
      ensures m.obj.children[j] == m.children[j].obj && Mirrored(m.children[j])
    {
      if j < k {
        assert m.children[j] == n.children[j] && m.obj.children[j] == n.obj.children[j];
      } else if j == k {
        assert m.children[j] == x && m.obj.children[j] == x.obj;
      } else {
        assert m.children[j] == n.children[j - 1] && m.obj.children[j] == n.obj.children[j - 1];
      }
    }
  }

  lemma {:induction false} InsertChildEntries(n: Node, i: nat, x: Node)
    ensures Entries(InsertChild(n, i, x)) == Entries(n) + Entries(x)
  {
    var k := if i <= |n.children| then i else |n.children|;
    var m := InsertChild(n, i, x);
    var a, b := n.children[..k], n.children[k..];
    assert m.children == a + [x] + b;
    assert a + b == n.children;
    SpliceEntries(a, x, b);
    assert EntryOf(m) == EntryOf(n);
  }

  lemma SpliceEntries(a: seq<Node>, x: Node, b: seq<Node>)
    ensures EntriesOf(a + [x] + b) == EntriesOf(a + b) + Entries(x)
  {
    EntriesOfAppend(a + [x], b);
    EntriesOfAppend(a, [x]);
    EntriesOfAppend(a, b);
    assert EntriesOf([x]) == Entries(x) by { assert [x][1..] == []; }
    assert (EntriesOf(a) + Entries(x)) + EntriesOf(b) == (EntriesOf(a) + EntriesOf(b)) + Entries(x);
  }

  lemma {:induction false} InsertChildInverse(n: Node, i: nat, x: Node)
    requires Mirrored(n)
    ensures RemoveChild(InsertChild(n, i, x), if i <= |n.children| then i else |n.children|) == n
  {
    var k := if i <= |n.children| then i else |n.children|;
    var m := InsertChild(n, i, x);
    assert m.children[..k] + m.children[k + 1..] == n.children;
    assert m.obj.children[..k] + m.obj.children[k + 1..] == n.obj.children;
  }

  lemma {:induction false} RemoveChildFacts(n: Node, i: nat)
    requires Mirrored(n)
    ensures Mirrored(RemoveChild(n, i))
    ensures EntryOf(RemoveChild(n, i)) == EntryOf(n)
    ensures i >= |n.children| ==> RemoveChild(n, i) == n
    ensures i < |n.children| ==> Entries(RemoveChild(n, i)) + Entries(n.children[i]) == Entries(n)
    ensures i < |n.children| ==> InsertChild(RemoveChild(n, i), i, n.children[i]) == n
  {
    if i < |n.children| {
      RemoveChildMirrored(n, i);
      RemoveChildEntries(n, i);
      RemoveChildInverse(n, i);
    }
  }

  lemma {:induction false} RemoveChildMirrored(n: Node, i: nat)
    requires Mirrored(n) && i < |n.children|
    ensures Mirrored(RemoveChild(n, i))
  {
    var m := RemoveChild(n, i);
    forall j | 0 <= j < |m.children|
      ensures m.obj.children[j] == m.children[j].obj && Mirrored(m.children[j])
    {
      if j < i {
        assert m.children[j] == n.children[j] && m.obj.children[j] == n.obj.children[j];
      } else {
        assert m.children[j] == n.children[j + 1] && m.obj.children[j] == n.obj.children[j + 1];
      }
    }
  }

  lemma {:induction false} RemoveChildEntries(n: Node, i: nat)
    requires Mirrored(n) && i < |n.children|
    ensures Entries(RemoveChild(n, i)) + Entries(n.children[i]) == Entries(n)
  {
    var m := RemoveChild(n, i);
    assert n.children == n.children[..i] + [n.children[i]] + n.children[i + 1..];
    EntriesOfAppend(n.children[..i] + [n.children[i]], n.children[i + 1..]);
    EntriesOfAppend(n.children[..i], [n.children[i]]);
    EntriesOfAppend(n.children[..i], n.children[i + 1..]);
    assert EntriesOf([n.children[i]]) == Entries(n.children[i]) by { assert [n.children[i]][1..] == []; }
    assert EntryOf(m) == EntryOf(n);
  }

  lemma {:induction false} RemoveChildInverse(n: Node, i: nat)
    requires Mirrored(n) && i < |n.children|
    ensures InsertChild(RemoveChild(n, i), i, n.children[i]) == n
  {
    assert n.obj.children[i] == n.children[i].obj;
    CutThenSplice(n.children, i);
    CutThenSplice(n.obj.children, i);
  }

  /** Splicing an element back where it was cut out restores the sequence. */
  lemma CutThenSplice<T>(s: seq<T>, i: nat)
    requires i < |s|
    ensures (s[..i] + s[i + 1..])[..i] + [s[i]] + (s[..i] + s[i + 1..])[i..] == s
  {
    var t := s[..i] + s[i + 1..];
    assert t[..i] == s[..i] && t[i..] == s[i + 1..];
  }

  // ---------------------------------------------------------------------------
  // Splicing anywhere in the tree

  /**
   * Inserting `x` under the node at `parent` at index i (clamped to the
   * child count, as `splice` does): the parent's children become the old
   * ones with `x` at that index, the tree gains exactly `x`'s records,
   * keeps its mirror invariant, and removing that child gives back the
   * tree unchanged.
   */
  lemma {:induction false} InsertAtFacts(root: Node, parent: Path, i: nat, x: Node)
    requires Mirrored(root) && Mirrored(x) && ValidPath(root, parent)
    ensures var old_ := NodeAt(root, parent).value.children;
            var k := if i <= |old_| then i else |old_|;
            var r := InsertAt(root, parent, i, x);
            && Mirrored(r)
            && ValidPath(r, parent)
            && NodeAt(r, parent).value.children == old_[..k] + [x] + old_[k..]
            && EntryOf(NodeAt(r, parent).value) == EntryOf(NodeAt(root, parent).value)
            && NodeAt(r, parent + [k]) == Some(x)
            && Entries(r) == Entries(root) + Entries(x)
            && RemoveAt(r, parent, k) == root
  {
    InsertAtShape(root, parent, i, x);
    InsertAtEntries(root, parent, i, x);
    InsertAtInverse(root, parent, i, x);
  }

  lemma {:induction false} InsertAtShape(root: Node, parent: Path, i: nat, x: Node)
    requires Mirrored(root) && Mirrored(x) && ValidPath(root, parent)
    ensures var old_ := NodeAt(root, parent).value.children;
            var k := if i <= |old_| then i else |old_|;
            var r := InsertAt(root, parent, i, x);
            && Mirrored(r)
            && ValidPath(r, parent)
            && NodeAt(r, parent).value.children == old_[..k] + [x] + old_[k..]
            && EntryOf(NodeAt(r, parent).value) == EntryOf(NodeAt(root, parent).value)
            && NodeAt(r, parent + [k]) == Some(x)
  {
    var p := NodeAt(root, parent).value;
    var k := if i <= |p.children| then i else |p.children|;
    var ic := InsertChild(p, i, x);
    MirroredAt(root, parent);
    InsertChildMirrored(p, i, x);
    ReplaceAtMirrored(root, parent, ic);
    ReplaceAtHere(root, parent, ic);
    ReplaceAtBelow(root, parent, ic, [k]);
  }

  lemma {:induction false} InsertAtEntries(root: Node, parent: Path, i: nat, x: Node)
    requires ValidPath(root, parent)
    ensures Entries(InsertAt(root, parent, i, x)) == Entries(root) + Entries(x)
  {
    var p := NodeAt(root, parent).value;
    var ic := InsertChild(p, i, x);
    var r := InsertAt(root, parent, i, x);
    InsertChildEntries(p, i, x);
    ReplaceAtEntries(root, parent, ic);
    forall e ensures Entries(r)[e] == (Entries(root) + Entries(x))[e] {
      assert (Entries(r) + Entries(p))[e] == (Entries(root) + Entries(ic))[e];
    }
  }

  lemma {:induction false} InsertAtInverse(root: Node, parent: Path, i: nat, x: Node)
    requires Mirrored(root) && ValidPath(root, parent)
    ensures var old_ := NodeAt(root, parent).value.children;
            var k := if i <= |old_| then i else |old_|;
            var r := InsertAt(root, parent, i, x);
            ValidPath(r, parent) && RemoveAt(r, parent, k) == root
  {
    var p := NodeAt(root, parent).value;
    var k := if i <= |p.children| then i else |p.children|;
    var ic := InsertChild(p, i, x);
    MirroredAt(root, parent);
    InsertChildInverse(p, i, x);
    ReplaceAtHere(root, parent, ic);
    ReplaceAtTwice(root, parent, ic, RemoveChild(ic, k));
    ReplaceAtSame(root, parent);
  }

  /**
   * Removing child i of the node at `parent`: the parent's children lose
   * exactly that one, the tree loses exactly that subtree's records, keeps
   * its mirror invariant, and putting the child back at i gives back the
   * tree unchanged. An index past the end removes nothing.
   */
  lemma {:induction false} RemoveAtFacts(root: Node, parent: Path, i: nat)
    requires Mirrored(root) && ValidPath(root, parent)
    ensures var old_ := NodeAt(root, parent).value.children;
            var r := RemoveAt(root, parent, i);
            && Mirrored(r)
            && ValidPath(r, parent)
            && EntryOf(NodeAt(r, parent).value) == EntryOf(NodeAt(root, parent).value)
            && (i >= |old_| ==> r == root)
            && (i < |old_| ==>
                  && NodeAt(r, parent).value.children == old_[..i] + old_[i + 1..]
                  && Entries(r) + Entries(old_[i]) == Entries(root)
                  && InsertAt(r, parent, i, old_[i]) == root)
  {
    var p := NodeAt(root, parent).value;
    var rc := RemoveChild(p, i);
    var r := RemoveAt(root, parent, i);
    MirroredAt(root, parent);
    RemoveChildFacts(p, i);
    ReplaceAtMirrored(root, parent, rc);
    ReplaceAtHere(root, parent, rc);
    ReplaceAtEntries(root, parent, rc);
    ReplaceAtSame(root, parent);
    if i < |p.children| {
      forall e ensures (Entries(r) + Entries(p.children[i]))[e] == Entries(root)[e] {
        assert (Entries(r) + Entries(p))[e] == (Entries(root) + Entries(rc))[e];
      }
      ReplaceAtTwice(root, parent, rc, InsertChild(rc, i, p.children[i]));
    }
  }

  /** Every subtree of a mirrored tree is mirrored. */
  lemma {:induction false} MirroredAt(n: Node, p: Path)
    requires Mirrored(n) && ValidPath(n, p)
    ensures Mirrored(NodeAt(n, p).value)
    decreases |p|
  {
    if p != [] {
      MirroredAt(n.children[p[0]], p[1..]);
    }
  }

  // ---------------------------------------------------------------------------
  // Search by url

  /**
   * `#search(url, node => node.#tab.url)`: the node's own record first,
   * then each child's subtree in index order; the path of the first match.
   */
  function Find(n: Node, url: string): Option<Path>
    decreases n, 1
  {
    if n.tab.url == url then Some([]) else FindIn(n.children, 0, url)
  }

  /** The loop over children, from index `from` on. */
  function FindIn(cs: seq<Node>, from: nat, url: string): Option<Path>
    decreases cs, 0, |cs| - from
  {
    if from >= |cs| then None
    else match Find(cs[from], url)
      case Some(p) => Some([from] + p)
      case None => FindIn(cs, from + 1, url)
  }

  /** p comes strictly before q in pre-order: an ancestor of q, or left of q where they part. */
  predicate PreBefore(p: Path, q: Path)
    decreases |p|
  {
    q != [] && (p == [] || p[0] < q[0] || (p[0] == q[0] && PreBefore(p[1..], q[1..])))
  }

  /** Some node of the tree records a page with this url. */
  ghost predicate HasUrl(n: Node, url: string)
  {
    exists e :: e in Entries(n) && e.tab.url == url
  }

  /** The loop answers for the first child, from `from` on, whose subtree holds a match. */
  lemma {:induction false} FindInFacts(cs: seq<Node>, from: nat, url: string)
    ensures FindIn(cs, from, url).None? ==> forall j :: from <= j < |cs| ==> Find(cs[j], url).None?
    ensures FindIn(cs, from, url).Some? ==>
              var p := FindIn(cs, from, url).value;
              && p != [] && from <= p[0] < |cs|
              && Find(cs[p[0]], url) == Some(p[1..])
              && forall j :: from <= j < p[0] ==> Find(cs[j], url).None?
    decreases |cs| - from
  {
    if from < |cs| && Find(cs[from], url).None? {
      FindInFacts(cs, from + 1, url);
    } else if from < |cs| {
      var p := FindIn(cs, from, url).value;
      assert p[1..] == Find(cs[from], url).value;
    }
  }

  /** A found path leads to a node whose record has the url. */
  lemma {:induction false} FindSound(n: Node, url: string)
    ensures Find(n, url).Some? ==>
              ValidPath(n, Find(n, url).value) && NodeAt(n, Find(n, url).value).value.tab.url == url
    decreases n
  {
    if n.tab.url != url {
      FindInFacts(n.children, 0, url);
      if Find(n, url).Some? {
        var p := Find(n, url).value;
        FindSound(n.children[p[0]], url);
      }
    }
  }

  /** Any node with the url is found: the search misses nothing. */
  lemma {:induction false} FindComplete(n: Node, url: string, q: Path)
    requires ValidPath(n, q) && NodeAt(n, q).value.tab.url == url
    ensures Find(n, url).Some?
    decreases |q|
  {
    if n.tab.url != url {
      FindComplete(n.children[q[0]], url, q[1..]);
      FindInFacts(n.children, 0, url);
    }
  }

  /** The search answers "none" exactly when no node records the url. */
  lemma FindNoneIffAbsent(n: Node, url: string)
    ensures Find(n, url).None? <==> !HasUrl(n, url)
  {
    if Find(n, url).Some? {
      FindSound(n, url);
      EntryAtPathIn(n, Find(n, url).value);
    }
    if HasUrl(n, url) {
      var e :| e in Entries(n) && e.tab.url == url;
      var q := EntryHasPath(n, e);
      FindComplete(n, url, q);
    }
  }

  /** The match found is the first in pre-order: every other match comes after it. */
  lemma {:induction false} FindFirst(n: Node, url: string, q: Path)
    requires ValidPath(n, q) && NodeAt(n, q).value.tab.url == url
    ensures Find(n, url).Some?
    ensures Find(n, url).value == q || PreBefore(Find(n, url).value, q)
    decreases |q|
  {
    FindComplete(n, url, q);
    if n.tab.url != url {
      FindInFacts(n.children, 0, url);
      var p := Find(n, url).value;
      var j := q[0];
      FindComplete(n.children[j], url, q[1..]);
      assert p[0] <= j;
      if p[0] == j {
        FindFirst(n.children[j], url, q[1..]);
        assert p == [j] + p[1..] && q == [j] + q[1..];
      }
    }
  }

  // ---------------------------------------------------------------------------
  // Moving a subtree

  /**
   * Where the node first reached by `q` is found once child k of the node
   * at `parent` has been removed: later siblings of the removed child, and
   * everything below them, move one index to the left.
   */
  function Shift(q: Path, parent: Path, k: nat): (r: Path)
    ensures |r| == |q|
  {
    if |q| > |parent| && parent <= q && q[|parent|] > k
    then q[|parent| := q[|parent|] - 1]
    else q
  }

  /** Two paths neither of which is a prefix of the other part at some index. */
  lemma {:induction false} Diverge(a: Path, b: Path) returns (m: nat)
    requires !(a <= b) && !(b <= a)
    ensures m < |a| && m < |b| && a[..m] == b[..m] && a[m] != b[m]
  {
    if a[0] != b[0] {
      m := 0;
    } else {
      var m' := Diverge(a[1..], b[1..]);
      m := m' + 1;
      assert a[..m] == [a[0]] + a[1..][..m'];
      assert b[..m] == [b[0]] + b[1..][..m'];
    }
  }

  /**
   * Removing child k of the node at `parent` leaves every node outside the
   * removed subtree in place under the shifted path, with its record; a
   * node that is not an ancestor of the removed child keeps its whole
   * subtree.
   */
  lemma {:induction false} ShiftFacts(root: Node, parent: Path, k: nat, q: Path)
    requires Mirrored(root) && ValidPath(root, parent) && k < |NodeAt(root, parent).value.children|
    requires ValidPath(root, q) && !(parent + [k] <= q)
    ensures ValidPath(RemoveAt(root, parent, k), Shift(q, parent, k))
    ensures EntryOf(NodeAt(RemoveAt(root, parent, k), Shift(q, parent, k)).value) == EntryOf(NodeAt(root, q).value)
    ensures !(q <= parent) ==> NodeAt(RemoveAt(root, parent, k), Shift(q, parent, k)) == NodeAt(root, q)
  {
    MirroredAt(root, parent);
    RemoveChildFacts(NodeAt(root, parent).value, k);
    if q <= parent {
      assert parent[..|q|] == q;
      ReplaceAtAbove(root, parent, RemoveChild(NodeAt(root, parent).value, k), |q|);
    } else if parent <= q {
      ShiftBelow(root, parent, k, q);
    } else {
      var m := Diverge(q, parent);
      ReplaceAtElsewhere(root, parent, RemoveChild(NodeAt(root, parent).value, k), q, m);
    }
  }

  /** A path strictly below `parent` is `parent`, one child index, and the rest. */
  lemma SplitBelow(parent: Path, q: Path)
    requires parent <= q && |q| > |parent|
    ensures q == parent + ([q[|parent|]] + q[|parent| + 1..])
  {
    assert q == q[..|parent|] + q[|parent|..];
    assert q[|parent|..] == [q[|parent|]] + q[|parent| + 1..];
  }

  /** Changing the child index right below `parent` keeps the rest of the path. */
  lemma SplitBelowUpdate(parent: Path, j: nat, j': nat, rest: Path)
    ensures (parent + ([j] + rest))[|parent| := j'] == parent + ([j'] + rest)
  {
    var q := parent + ([j] + rest);
    assert forall i | 0 <= i < |q| :: q[|parent| := j'][i] == (parent + ([j'] + rest))[i];
  }

  lemma {:induction false} ShiftBelow(root: Node, parent: Path, k: nat, q: Path)
    requires ValidPath(root, parent) && k < |NodeAt(root, parent).value.children|
    requires ValidPath(root, q) && !(parent + [k] <= q) && parent <= q && q != parent
    ensures NodeAt(RemoveAt(root, parent, k), Shift(q, parent, k)) == NodeAt(root, q)
  {
    var pn := NodeAt(root, parent).value;
    var rc := RemoveChild(pn, k);
    var rest := q[|parent| + 1..];
    var j := q[|parent|];
    SplitBelow(parent, q);
    assert j != k by { assert parent + [k] != q[..|parent| + 1]; }
    NodeAtAppend(root, parent, [j] + rest);
    var j' := if j > k then j - 1 else j;
    SplitBelowUpdate(parent, j, j', rest);
    assert Shift(q, parent, k) == parent + ([j'] + rest);
    ReplaceAtBelow(root, parent, rc, [j'] + rest);
    assert rc.children[j'] == pn.children[j];
    assert ([j'] + rest)[1..] == rest && ([j] + rest)[1..] == rest;
    calc {
      NodeAt(RemoveAt(root, parent, k), Shift(q, parent, k));
      NodeAt(ReplaceAt(root, parent, rc), parent + ([j'] + rest));
      NodeAt(rc, [j'] + rest);
      NodeAt(pn.children[j], rest);
      NodeAt(pn, [j] + rest);
      NodeAt(root, q);
    }
  }

  /**
   * `repositionNode(sp + [k], dst, after)` once the checks have passed:
   * cut child k of the node at `sp` out, find the destination among its
   * parent's children as they now are, and splice the cut subtree in
   * before it, or after it when `after` holds.
   */
  function MoveChild(root: Node, sp: Path, k: nat, dst: Path, after: bool): Node
    requires Mirrored(root) && dst != [] && !(sp + [k] <= dst)
    requires ValidPath(root, sp + [k]) && ValidPath(root, dst)
  {
    RemovedSourceShape(root, sp, k);
    ShiftFacts(root, sp, k, dst);
    PlaceBeside(RemoveAt(root, sp, k), Shift(dst, sp, k), after, NodeAt(root, sp + [k]).value)
  }

  /** `repositionNode(src, dst, after)` once the checks have passed, `src` split into parent path and index. */
  function Repositioned(root: Node, src: Path, dst: Path, after: bool): Node
    requires Mirrored(root) && dst != [] && !(src <= dst)
    requires ValidPath(root, src) && ValidPath(root, dst)
  {
    assert src == src[..|src| - 1] + [src[|src| - 1]];
    MoveChild(root, src[..|src| - 1], src[|src| - 1], dst, after)
  }

  /** Splice `x` in among the siblings of the node at `d`, just before it or just after it. */
  function PlaceBeside(r: Node, d: Path, after: bool, x: Node): Node
    requires d != [] && ValidPath(r, d)
  {
    PrefixValid(r, d, |d| - 1);
    InsertAt(r, d[..|d| - 1], if after then d[|d| - 1] + 1 else d[|d| - 1], x)
  }

  /** Splicing beside the node at `d` keeps the tree mirrored and adds exactly `x`'s records. */
  lemma {:induction false} PlaceBesideKeeps(r: Node, d: Path, after: bool, x: Node)
    requires Mirrored(r) && Mirrored(x) && d != [] && ValidPath(r, d)
    ensures Mirrored(PlaceBeside(r, d, after, x))
    ensures Entries(PlaceBeside(r, d, after, x)) == Entries(r) + Entries(x)
  {
    var dp, di := d[..|d| - 1], d[|d| - 1];
    PrefixValid(r, d, |d| - 1);
    InsertAtShape(r, dp, if after then di + 1 else di, x);
    InsertAtEntries(r, dp, if after then di + 1 else di, x);
  }

  /**
   * Splicing beside the node at `d`: among its parent's children `x` sits
   * right before it (or right after it), and the parent keeps its record.
   */
  lemma {:induction false} PlaceBesideFacts(r: Node, d: Path, after: bool, x: Node)
    requires Mirrored(r) && Mirrored(x) && d != [] && ValidPath(r, d)
    ensures var p := PlaceBeside(r, d, after, x);
            var dp, di := d[..|d| - 1], d[|d| - 1];
            var si := if after then di + 1 else di;
            var ti := if after then di else di + 1;
            && ValidPath(r, dp) && ValidPath(p, dp)
            && var c := NodeAt(p, dp).value.children;
            && si < |c| && ti < |c|
            && c[si] == x && c[ti] == NodeAt(r, d).value
            && EntryOf(NodeAt(p, dp).value) == EntryOf(NodeAt(r, dp).value)
  {
    var dp, di := d[..|d| - 1], d[|d| - 1];
    assert d == dp + [di];
    PrefixValid(r, d, |d| - 1);
    NodeAtAppend(r, dp, [di]);
    var si := if after then di + 1 else di;
    InsertAtShape(r, dp, si, x);
    SpliceBeside(NodeAt(r, dp).value.children, di, after, x);
  }

  /** Inserting `x` at `di`, or right after it, leaves the old element at `di` beside it. */
  lemma SpliceBeside<T>(s: seq<T>, di: nat, after: bool, x: T)
    requires di < |s|
    ensures var si := if after then di + 1 else di;
            var ti := if after then di else di + 1;
            var t := s[..si] + [x] + s[si..];
            si < |t| && ti < |t| && t[si] == x && t[ti] == s[di]
  {
  }

  lemma {:induction false} PrefixValid(n: Node, p: Path, k: nat)
    requires ValidPath(n, p) && k <= |p|
    ensures ValidPath(n, p[..k])
  {
    assert p == p[..k] + p[k..];
    NodeAtAppend(n, p[..k], p[k..]);
  }

  /** A move keeps the tree mirrored and neither gains nor loses a record. */
  lemma {:induction false} MoveChildKeeps(root: Node, sp: Path, k: nat, dst: Path, after: bool)
    requires Mirrored(root) && dst != [] && !(sp + [k] <= dst)
    requires ValidPath(root, sp + [k]) && ValidPath(root, dst)
    ensures Mirrored(MoveChild(root, sp, k, dst, after))
    ensures Entries(MoveChild(root, sp, k, dst, after)) == Entries(root)
  {
    RemovedSource(root, sp, k);
    ShiftFacts(root, sp, k, dst);
    var r1, d, moved := RemoveAt(root, sp, k), Shift(dst, sp, k), NodeAt(root, sp + [k]).value;
    PlaceBesideKeeps(r1, d, after, moved);
  }

  /**
   * After a move the source subtree, intact, is a child of the node that
   * held the destination, immediately before the destination (or after
   * it, when `after` holds), and the destination keeps its record.
   */
  lemma {:induction false} MoveChildFacts(root: Node, sp: Path, k: nat, dst: Path, after: bool)
    requires Mirrored(root) && dst != [] && !(sp + [k] <= dst)
    requires ValidPath(root, sp + [k]) && ValidPath(root, dst)
    ensures Beside(MoveChild(root, sp, k, dst, after), Shift(dst, sp, k), after,
                   NodeAt(root, sp + [k]).value, NodeAt(root, dst).value)
  {
    RemovedAndShifted(root, sp, k, dst);
    var r1, d, moved := RemoveAt(root, sp, k), Shift(dst, sp, k), NodeAt(root, sp + [k]).value;
    PlacedBeside(MoveChild(root, sp, k, dst, after), r1, d, after, moved, NodeAt(root, dst).value);
  }

  /**
   * In `p`, `x` and a node holding the record of `t` are siblings under the
   * node at the parent path of `d`: `x` at the last index of `d` and the
   * other right after it, or, when `after` holds, the other at that index
   * and `x` right after it.
   */
  predicate Beside(p: Node, d: Path, after: bool, x: Node, t: Node)
  {
    && d != []
    && var dp, di := d[..|d| - 1], d[|d| - 1];
       var si := if after then di + 1 else di;
       var ti := if after then di else di + 1;
       var holder := NodeAt(p, dp);
       && holder.Some?
       && si < |holder.value.children| && ti < |holder.value.children|
       && holder.value.children[si] == x
       && EntryOf(holder.value.children[ti]) == EntryOf(t)
  }

  /**
   * A tree `p` known to be the result of splicing `x` beside the node at
   * `d` has the two side by side, `t` being any node with the record of
   * the one at `d`.
   */
  lemma PlacedBeside(p: Node, r: Node, d: Path, after: bool, x: Node, t: Node)
    requires Mirrored(r) && Mirrored(x) && d != [] && ValidPath(r, d)
    requires p == PlaceBeside(r, d, after, x)
    requires EntryOf(NodeAt(r, d).value) == EntryOf(t)
    ensures Beside(p, d, after, x, t)
  {
    PlaceBesideFacts(r, d, after, x);
  }

  /** Once the source is cut out, the destination is still there, at its shifted path. */
  lemma {:induction false} RemovedAndShifted(root: Node, sp: Path, k: nat, dst: Path)
    requires Mirrored(root) && dst != [] && !(sp + [k] <= dst)
    requires ValidPath(root, sp + [k]) && ValidPath(root, dst)
    ensures ValidPath(root, sp)
    ensures Mirrored(RemoveAt(root, sp, k)) && Mirrored(NodeAt(root, sp + [k]).value)
    ensures var d := Shift(dst, sp, k);
            && d != []
            && ValidPath(RemoveAt(root, sp, k), d)
            && EntryOf(NodeAt(RemoveAt(root, sp, k), d).value) == EntryOf(NodeAt(root, dst).value)
  {
    RemovedSourceShape(root, sp, k);
    ShiftFacts(root, sp, k, dst);
  }

  /** Cutting the source out: what is left, and what was cut. */
  lemma {:induction false} RemovedSource(root: Node, sp: Path, k: nat)
    requires Mirrored(root) && ValidPath(root, sp + [k])
    ensures ValidPath(root, sp)
    ensures k < |NodeAt(root, sp).value.children|
    ensures NodeAt(root, sp + [k]).value == NodeAt(root, sp).value.children[k]
    ensures Mirrored(NodeAt(root, sp + [k]).value)
    ensures Mirrored(RemoveAt(root, sp, k))
    ensures Entries(RemoveAt(root, sp, k)) + Entries(NodeAt(root, sp + [k]).value) == Entries(root)
  {
    RemovedSourceShape(root, sp, k);
    RemoveAtFacts(root, sp, k);
  }

  /** The part of `RemovedSource` that is about positions only. */
  lemma {:induction false} RemovedSourceShape(root: Node, sp: Path, k: nat)
    requires Mirrored(root) && ValidPath(root, sp + [k])
    ensures ValidPath(root, sp)
    ensures k < |NodeAt(root, sp).value.children|
    ensures NodeAt(root, sp + [k]).value == NodeAt(root, sp).value.children[k]
    ensures Mirrored(NodeAt(root, sp + [k]).value)
    ensures Mirrored(RemoveAt(root, sp, k))
  {
    PrefixValid(root, sp + [k], |sp|);
    assert (sp + [k])[..|sp|] == sp;
    NodeAtAppend(root, sp, [k]);
    MirroredAt(root, sp + [k]);
    RemoveAtFacts(root, sp, k);
  }

  /** The node that ends up holding the moved subtree is the destination's old parent. */
  lemma {:induction false} MoveChildParent(root: Node, sp: Path, k: nat, dst: Path, after: bool)
    requires Mirrored(root) && dst != [] && !(sp + [k] <= dst)
    requires ValidPath(root, sp + [k]) && ValidPath(root, dst)
    ensures var r := MoveChild(root, sp, k, dst, after);
            var d := Shift(dst, sp, k);
            var before, now := NodeAt(root, dst[..|dst| - 1]), NodeAt(r, d[..|d| - 1]);
            before.Some? && now.Some? && EntryOf(now.value) == EntryOf(before.value)
  {
    RemovedAndShifted(root, sp, k, dst);
    var r1, d, moved := RemoveAt(root, sp, k), Shift(dst, sp, k), NodeAt(root, sp + [k]).value;
    PlaceBesideFacts(r1, d, after, moved);
    assert MoveChild(root, sp, k, dst, after) == PlaceBeside(r1, d, after, moved);
    ParentAfterRemoval(root, sp, k, dst);
  }

  /** Cutting the source out keeps the record of the destination's parent, at its shifted path. */
  lemma {:induction false} ParentAfterRemoval(root: Node, sp: Path, k: nat, dst: Path)
    requires Mirrored(root) && dst != [] && !(sp + [k] <= dst)
    requires ValidPath(root, sp + [k]) && ValidPath(root, dst)
    ensures ValidPath(root, sp) && ValidPath(root, dst[..|dst| - 1])
    ensures var d := Shift(dst, sp, k);
            && d != []
            && ValidPath(RemoveAt(root, sp, k), d[..|d| - 1])
            && EntryOf(NodeAt(RemoveAt(root, sp, k), d[..|d| - 1]).value) == EntryOf(NodeAt(root, dst[..|dst| - 1]).value)
  {
    RemovedSourceShape(root, sp, k);
    var dstParent := dst[..|dst| - 1];
    PrefixValid(root, dst, |dst| - 1);
    assert dstParent <= dst;
    assert !(sp + [k] <= dstParent);
    ShiftParent(dst, sp, k);
    ShiftFacts(root, sp, k, dstParent);
  }

  /** Shifting a path and then dropping its last index is dropping it, then shifting. */
  lemma ShiftParent(dst: Path, sp: Path, k: nat)
    requires dst != []
    ensures var d := Shift(dst, sp, k); d != [] && d[..|d| - 1] == Shift(dst[..|dst| - 1], sp, k)
  {
  }

  /** The move worked through: `[A, B, C]` with `([2], [0], false)` becomes `[C, A, B]`. */
  lemma MoveLastBeforeFirst(t: BunnyTab, o: JsObj, a: Node, b: Node, c: Node)
    requires Mirrored(a) && Mirrored(b) && Mirrored(c)
    ensures !([2] <= [0])
    ensures Mirrored(Node(t, o.(children := [a.obj, b.obj, c.obj]), [a, b, c]))
    ensures Repositioned(Node(t, o.(children := [a.obj, b.obj, c.obj]), [a, b, c]), [2], [0], false).children == [c, a, b]
  {
    var root := Node(t, o.(children := [a.obj, b.obj, c.obj]), [a, b, c]);
    var r1 := RemoveAt(root, [], 2);
    assert r1 == RemoveChild(root, 2);
    assert r1.children == [a, b];
    assert Shift([0], [], 2) == [0];
    assert [] + [2] == [2];
    assert NodeAt(root, [2]) == Some(c);
    assert [2][..0] == [] && [2][0] == 2;
    var r := Repositioned(root, [2], [0], false);
    assert r == MoveChild(root, [], 2, [0], false);
    assert r == InsertAt(r1, [], 0, c);
    assert r == InsertChild(r1, 0, c);
  }

  // ---------------------------------------------------------------------------
  // Loading the stored form

  const ROOT_NODE_TITLE := "New Bunny Hole"
  const ROOT_NODE_URL := "<No URL>"
  const ROOT_NODE_NOTES := ""
  /** `DEFAULT_JS_OBJ.reactKey`. */
  const DEFAULT_REACT_KEY := 0

  /** A stored node as read back; a field the stored object lacks is `None` (or `Absent`). */
  datatype PlainObj = PlainObj(title: Option<string>, url: Option<string>, notes: Option<string>,
                               reactKey: Option<int>, children: StoredChildren)

  datatype StoredChildren = Absent | Present(list: seq<PlainObj>)

  function OrElse<T>(o: Option<T>, d: T): T
  {
    if o.Some? then o.value else d
  }

  function Objs(ns: seq<Node>): (os: seq<JsObj>)
    ensures |os| == |ns| && forall i :: 0 <= i < |ns| ==> os[i] == ns[i].obj
  {
    if ns == [] then [] else [ns[0].obj] + Objs(ns[1..])
  }

  /**
   * `new BunnyHole(jsObj)`: the stored fields over the defaults; the key
   * counter raised past the node's key before the children are built, in
   * order, each from the counter its elder sibling left; the page record
   * built from (title, url, notes) in the (id, title, url) slots. Returns
   * the node and the counter afterwards.
   */
  function LoadNode(p: PlainObj, counter: int): (Node, int)
    decreases p, 1
  {
    var title := OrElse(p.title, ROOT_NODE_TITLE);
    var url := OrElse(p.url, ROOT_NODE_URL);
    var notes := OrElse(p.notes, ROOT_NODE_NOTES);
    var key := OrElse(p.reactKey, DEFAULT_REACT_KEY);
    var c1 := if counter >= key + 1 then counter else key + 1;
    var loaded := if p.children.Present? then LoadAll(p.children.list, c1) else ([], c1);
    (Node(NewTab(TabText(title), url, notes), JsObj(title, url, notes, key, Objs(loaded.0)), loaded.0), loaded.1)
  }

  /** `children.map(childObj => new BunnyHole(childObj))`. */
  function LoadAll(ps: seq<PlainObj>, counter: int): (seq<Node>, int)
    decreases ps, 0
  {
    if ps == [] then ([], counter)
    else
      var first := LoadNode(ps[0], counter);
      var rest := LoadAll(ps[1..], first.1);
      ([first.0] + rest.0, rest.1)
  }

  /** Every key in the tree is below `bound`. */
  ghost predicate KeysBelow(n: Node, bound: int)
  {
    forall e :: e in Entries(n) ==> e.reactKey < bound
  }

  /**
   * A loaded tree is mirrored, keeps the stored child count, and leaves
   * the counter above its own and every loaded key.
   */
  lemma {:induction false} LoadNodeFacts(p: PlainObj, counter: int)
    ensures Mirrored(LoadNode(p, counter).0)
    ensures LoadNode(p, counter).1 >= counter
    ensures KeysBelow(LoadNode(p, counter).0, LoadNode(p, counter).1)
    ensures |LoadNode(p, counter).0.children| == if p.children.Present? then |p.children.list| else 0
    decreases p, 1
  {
    var key := OrElse(p.reactKey, DEFAULT_REACT_KEY);
    var c1 := if counter >= key + 1 then counter else key + 1;
    if p.children.Present? {
      LoadAllFacts(p.children.list, c1);
    }
  }

  lemma {:induction false} LoadAllFacts(ps: seq<PlainObj>, counter: int)
    ensures var r := LoadAll(ps, counter);
            && |r.0| == |ps|
            && r.1 >= counter
            && (forall i :: 0 <= i < |r.0| ==> Mirrored(r.0[i]))
            && forall e :: e in EntriesOf(r.0) ==> e.reactKey < r.1
    decreases ps, 0
  {
    if ps != [] {
      var first := LoadNode(ps[0], counter);
      LoadNodeFacts(ps[0], counter);
      LoadAllFacts(ps[1..], first.1);
      var r := LoadAll(ps, counter);
      assert r.0[0] == first.0 && r.0[1..] == LoadAll(ps[1..], first.1).0;
    }
  }

  /** The stored form of a node: every field present. */
  function ToPlain(o: JsObj): PlainObj
    decreases o, 1
  {
    PlainObj(Some(o.title), Some(o.url), Some(o.notes), Some(o.reactKey), Present(ToPlainAll(o.children)))
  }

  function ToPlainAll(os: seq<JsObj>): (ps: seq<PlainObj>)
    decreases os, 0
  {
    if os == [] then [] else [ToPlain(os[0])] + ToPlainAll(os[1..])
  }

  /** Storing a node and loading it back gives the same `#obj`, children in the same order. */
  lemma {:induction false} LoadRoundTrip(o: JsObj, counter: int)
    ensures LoadNode(ToPlain(o), counter).0.obj == o
    decreases o, 1
  {
    var c1 := if counter >= o.reactKey + 1 then counter else o.reactKey + 1;
    LoadAllRoundTrip(o.children, c1);
  }

  lemma {:induction false} LoadAllRoundTrip(os: seq<JsObj>, counter: int)
    ensures Objs(LoadAll(ToPlainAll(os), counter).0) == os
    decreases os, 0
  {
    if os != [] {
      var ps := ToPlainAll(os);
      assert ps[0] == ToPlain(os[0]) && ps[1..] == ToPlainAll(os[1..]);
      var first := LoadNode(ps[0], counter);
      LoadRoundTrip(os[0], counter);
      LoadAllRoundTrip(os[1..], first.1);
      var r := LoadAll(ps, counter);
      assert r.0 == [first.0] + LoadAll(ps[1..], first.1).0;
      assert Objs(r.0) == [first.0.obj] + Objs(LoadAll(ps[1..], first.1).0);
    }
  }

  /**
   * A loaded node is found by the url search under its stored notes, cut
   * at '#', and not under its stored url.
   */
  lemma LoadedNodeMatchesNotes(p: PlainObj, counter: int, url: string)
    ensures LoadNode(p, counter).0.tab.url == StripFragment(OrElse(p.notes, ROOT_NODE_NOTES))
    ensures Find(LoadNode(p, counter).0, url) == Some([]) <==> url == StripFragment(OrElse(p.notes, ROOT_NODE_NOTES))
  {
    FindInFacts(LoadNode(p, counter).0.children, 0, url);
  }
}
