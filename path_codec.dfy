/**
 * How the sidebar addresses tree nodes by path through CSS class names
 * (src/ui/sidebar/BunnyHole.jsx, and the same code in src/ui/BunnyHole.jsx):
 * a node at path [2, 0] carries the classes "nodePath2_0" and "nodeDepth2",
 * and `parsePath` reads the path back out of an element's class list.
 */
module PathCodec {
  import opened Wrappers
  import opened JsNumbers

  const NODE_DEPTH_CLASSNAME := "nodeDepth"
  const NODE_PATH_CLASSNAME := "nodePath"
  const NODE_PATH_DELIMITER := '_'

  /** `parts.join(sep)`. */
  function Join(parts: seq<string>, sep: char): string
  {
    if parts == [] then ""
    else if |parts| == 1 then parts[0]
    else parts[0] + [sep] + Join(parts[1..], sep)
  }

  /** The position of the first `c` in `s`. */
  function FirstIndex(s: string, c: char): (i: nat)
    requires c in s
    ensures i < |s| && s[i] == c && c !in s[..i]
  {
    if s[0] == c then 0 else 1 + FirstIndex(s[1..], c)
  }

  /** `s.split(sep)`: the pieces between separators, an empty string giving one empty piece. */
  function Split(s: string, sep: char): (parts: seq<string>)
    ensures parts != []
    ensures forall i :: 0 <= i < |parts| ==> sep !in parts[i]
    ensures Join(parts, sep) == s
    decreases |s|
  {
    if sep !in s then [s]
    else
      var i := FirstIndex(s, sep);
      var rest := Split(s[i + 1..], sep);
      assert s == s[..i] + [sep] + s[i + 1..];
      [s[..i]] + rest
  }

  /** The first separator after a separator-free piece is the one right after it. */
  lemma {:induction false} FirstIndexAfter(a: string, sep: char, b: string)
    requires sep !in a
    ensures FirstIndex(a + [sep] + b, sep) == |a|
  {
    if a != [] {
      assert (a + [sep] + b)[1..] == a[1..] + [sep] + b;
      FirstIndexAfter(a[1..], sep, b);
    }
  }

  /** Splitting undoes joining pieces that hold no separator. */
  lemma {:induction false} SplitJoin(parts: seq<string>, sep: char)
    requires parts != []
    requires forall i :: 0 <= i < |parts| ==> sep !in parts[i]
    ensures Split(Join(parts, sep), sep) == parts
  {
    if |parts| > 1 {
      var s := Join(parts, sep);
      var tail := Join(parts[1..], sep);
      assert s == parts[0] + [sep] + tail;
      assert s[|parts[0]|] == sep;
      assert s[..|parts[0]|] == parts[0];
      FirstIndexAfter(parts[0], sep, tail);
      assert s[|parts[0]| + 1..] == tail;
      SplitJoin(parts[1..], sep);
    }
  }

  /** The decimal text of each path element. */
  function Strings(path: seq<nat>): (r: seq<string>)
    ensures |r| == |path|
  {
    seq(|path|, i requires 0 <= i < |path| => NatToString(path[i]))
  }

  /** A path as the JavaScript numbers it holds. */
  function Ints(path: seq<nat>): (r: seq<JsNumber>)
    ensures |r| == |path|
    ensures forall i :: 0 <= i < |path| ==> r[i] == Int(path[i])
  {
    seq(|path|, i requires 0 <= i < |path| => Int(path[i]))
  }

  /** `parseInt` applied to each piece. */
  function ParseAll(parts: seq<string>): (r: seq<JsNumber>)
    ensures |r| == |parts|
  {
    seq(|parts|, i requires 0 <= i < |parts| => ParseInt(parts[i]))
  }

  /** `buildDepthClassName(p)`: "nodeDepth" followed by the path's length. */
  function BuildDepthClassName(path: seq<nat>): string
  {
    NODE_DEPTH_CLASSNAME + NatToString(|path|)
  }

  /** `buildPathClassName(p)`: "nodePath" followed by the elements joined with '_'. */
  function BuildPathClassName(path: seq<nat>): string
  {
    NODE_PATH_CLASSNAME + Join(Strings(path), NODE_PATH_DELIMITER)
  }

  /** The class that `getClassName` returns: the first, in list order, starting with the prefix. */
  function FirstWithPrefix(classes: seq<string>, prefix: string): (r: Option<string>)
    ensures r.None? <==> forall i :: 0 <= i < |classes| ==> !(prefix <= classes[i])
    ensures r.Some? ==> exists i :: 0 <= i < |classes| && classes[i] == r.value &&
                           forall j :: 0 <= j < i ==> !(prefix <= classes[j])
    ensures r.Some? ==> prefix <= r.value
  {
    if classes == [] then None
    else if prefix <= classes[0] then Some(classes[0])
    else
      var r := FirstWithPrefix(classes[1..], prefix);
      assert forall i :: 1 <= i < |classes| ==> classes[i] == classes[1..][i - 1];
      r
  }

  /** `getClassName(target, prefix)` over the target's class list; null is `None`. */
  method GetClassName(classes: seq<string>, prefix: string) returns (r: Option<string>)
    ensures r == FirstWithPrefix(classes, prefix)
  {
    for i := 0 to |classes|
      invariant FirstWithPrefix(classes, prefix) == FirstWithPrefix(classes[i..], prefix)
    {
      assert classes[i..][1..] == classes[i + 1..];
      if prefix <= classes[i] {
        return Some(classes[i]);
      }
    }
    return None;
  }

  /** What `parsePath` returns for an element with this class list. */
  function PathOf(classes: seq<string>): seq<JsNumber>
  {
    match FirstWithPrefix(classes, NODE_PATH_CLASSNAME)
    case None => []
    case Some(c) => ParseAll(Split(c[|NODE_PATH_CLASSNAME|..], NODE_PATH_DELIMITER))
  }

  /** `parsePath(target)`: no path class gives [], otherwise `parseInt` of each '_'-separated piece. */
  method ParsePath(classes: seq<string>) returns (path: seq<JsNumber>)
    ensures path == PathOf(classes)
    ensures (forall i :: 0 <= i < |classes| ==> !(NODE_PATH_CLASSNAME <= classes[i])) ==> path == []
  {
    var pathClassName := GetClassName(classes, NODE_PATH_CLASSNAME);
    if pathClassName.None? {
      return [];
    }
    var pathStrings := Split(pathClassName.value[|NODE_PATH_CLASSNAME|..], NODE_PATH_DELIMITER);
    path := ParseAll(pathStrings);
  }

  /** Decoding the path class name of a non-empty path gives the path back. */
  lemma PathRoundTrip(path: seq<nat>, classes: seq<string>)
    requires path != []
    requires FirstWithPrefix(classes, NODE_PATH_CLASSNAME) == Some(BuildPathClassName(path))
    ensures PathOf(classes) == Ints(path)
  {
    var c := BuildPathClassName(path);
    assert c[|NODE_PATH_CLASSNAME|..] == Join(Strings(path), NODE_PATH_DELIMITER);
    forall i | 0 <= i < |path| ensures NODE_PATH_DELIMITER !in Strings(path)[i] {
      var s := NatToString(path[i]);
      assert forall k :: 0 <= k < |s| ==> IsDecimalDigit(s[k]);
    }
    SplitJoin(Strings(path), NODE_PATH_DELIMITER);
    forall i | 0 <= i < |path| ensures ParseAll(Strings(path))[i] == Int(path[i]) {
      ParseIntOfNatToString(path[i]);
    }
  }

  /** A path class name alone in a class list is found by `getClassName`. */
  lemma PathClassFound(path: seq<nat>)
    ensures FirstWithPrefix([BuildPathClassName(path)], NODE_PATH_CLASSNAME) == Some(BuildPathClassName(path))
  {
  }

  /**
   * The root path does not round-trip: [] encodes to "nodePath", whose empty
   * remainder splits into one empty piece, and `parseInt("")` is NaN.
   */
  lemma RootPathParsesToNaN(classes: seq<string>)
    requires FirstWithPrefix(classes, NODE_PATH_CLASSNAME) == Some(BuildPathClassName([]))
    ensures PathOf(classes) == [NaN]
  {
    assert BuildPathClassName([]) == NODE_PATH_CLASSNAME;
    assert BuildPathClassName([])[|NODE_PATH_CLASSNAME|..] == "";
    assert Split("", NODE_PATH_DELIMITER) == [""];
    ParseIntOfEmpty();
  }

  /** Distinct non-empty paths get distinct path class names. */
  lemma PathClassNameInjective(p: seq<nat>, q: seq<nat>)
    requires p != [] && q != []
    requires BuildPathClassName(p) == BuildPathClassName(q)
    ensures p == q
  {
    PathClassFound(p);
    PathRoundTrip(p, [BuildPathClassName(p)]);
    PathRoundTrip(q, [BuildPathClassName(q)]);
    assert Ints(p) == Ints(q);
    assert |p| == |q|;
    forall i | 0 <= i < |p| ensures p[i] == q[i] {
      assert Ints(p)[i] == Int(p[i]);
    }
  }

  /** A depth class is never mistaken for a path class, and its suffix reads back as the depth. */
  lemma DepthClassEncodesLength(path: seq<nat>)
    ensures !(NODE_PATH_CLASSNAME <= BuildDepthClassName(path))
    ensures ParseInt(BuildDepthClassName(path)[|NODE_DEPTH_CLASSNAME|..]) == Int(|path|)
  {
    var d := BuildDepthClassName(path);
    assert d[4] == 'D';
    assert d[|NODE_DEPTH_CLASSNAME|..] == NatToString(|path|);
    ParseIntOfNatToString(|path|);
  }

  /** What each child of a rendered node is given: its depth, path and the two class names. */
  datatype ChildView = ChildView(depth: nat, depthClassName: string, path: seq<nat>, pathClassName: string)

  /** The children of the node at `path` as the sidebar lays them out, one per child index. */
  function ChildViews(path: seq<nat>, count: nat): (views: seq<ChildView>)
    ensures |views| == count
    ensures forall i :: 0 <= i < count ==> views[i].path == path + [i] && views[i].depth == |views[i].path|
  {
    seq(count, i requires 0 <= i < count =>
      var childPath := path + [i];
      ChildView(|childPath|, BuildDepthClassName(childPath), childPath, BuildPathClassName(childPath)))
  }

  /**
   * Each child's path class reads back as the parent path with the child's
   * index appended, so sibling class names are pairwise distinct.
   */
  lemma ChildViewsAddressChildren(path: seq<nat>, count: nat, i: nat, j: nat)
    requires i < count && j < count
    ensures PathOf([ChildViews(path, count)[i].pathClassName]) == Ints(path + [i])
    ensures i != j ==> ChildViews(path, count)[i].pathClassName != ChildViews(path, count)[j].pathClassName
  {
    var views := ChildViews(path, count);
    PathClassFound(path + [i]);
    PathRoundTrip(path + [i], [views[i].pathClassName]);
    if i != j {
      PathClassFound(path + [j]);
      PathRoundTrip(path + [j], [views[j].pathClassName]);
      assert Ints(path + [i])[|path|] != Ints(path + [j])[|path|];
    }
  }
}
