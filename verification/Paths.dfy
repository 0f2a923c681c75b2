/** Path lookup and the shell's find on a file tree (fs/vfs.c:43-76, fs/ramfs.c:51-60, kernel/shell.c:875-888). */
module Paths {
  import opened Bytes

  const NAME_MAX := 64
  const PATH_MAX := 256

  datatype Node = Node(name: string, isDir: bool, children: seq<Node>)

  /** A node's place: the child numbers on the way from the root. */
  type Place = seq<nat>

  predicate GoodName(name: string)
  {
    0 < |name| < NAME_MAX && '/' !in name
  }

  /** Names are those of components, and only directories have children. */
  predicate GoodTree(node: Node)
  {
    && (node.children != [] ==> node.isDir)
    && (forall i :: 0 <= i < |node.children| ==> GoodName(node.children[i].name) && GoodTree(node.children[i]))
  }

  predicate IsPlace(node: Node, place: Place)
  {
    place == [] || (place[0] < |node.children| && IsPlace(node.children[place[0]], place[1..]))
  }

  function At(node: Node, place: Place): Node
    requires IsPlace(node, place)
    decreases |place|
  {
    if place == [] then node else At(node.children[place[0]], place[1..])
  }

  /** The names on the way, each behind a slash. */
  function Relative(node: Node, place: Place): string
    requires IsPlace(node, place)
    decreases |place|
  {
    if place == [] then ""
    else "/" + node.children[place[0]].name + Relative(node.children[place[0]], place[1..])
  }

  function PathOf(root: Node, place: Place): string
    requires IsPlace(root, place)
  {
    if place == [] then "/" else Relative(root, place)
  }

  // ---------------------------------------------------------------- vfs_resolve

  /** ramfs_finddir: the first child of the name. */
  function FindDir(node: Node, name: string, from: nat): (r: Option<nat>)
    requires from <= |node.children|
    ensures r.Some? ==> from <= r.value < |node.children| && node.children[r.value].name == name
    ensures r.Some? ==> forall j :: from <= j < r.value ==> node.children[j].name != name
    ensures r.None? ==> forall j :: from <= j < |node.children| ==> node.children[j].name != name
    decreases |node.children| - from
  {
    if from == |node.children| then None
    else if node.children[from].name == name then Some(from)
    else FindDir(node, name, from + 1)
  }

  /** How long the next component is: up to the next slash, and at most 63 characters. */
  function PartLength(path: string, n: nat): (k: nat)
    requires n <= |path| && n < NAME_MAX
    ensures n <= k <= |path| && k < NAME_MAX
    ensures forall j :: n <= j < k ==> path[j] != '/'
    ensures k == |path| || path[k] == '/' || k == NAME_MAX - 1
    decreases |path| - n
  {
    if n < |path| && path[n] != '/' && n < NAME_MAX - 1 then PartLength(path, n + 1) else n
  }

  /** What follows the next component and its slash. */
  function AfterPart(path: string): (rest: string)
    ensures path != "" ==> |rest| < |path|
  {
    var k := PartLength(path, 0);
    if k < |path| && path[k] == '/' then path[k + 1..] else path[k..]
  }

  /** The loop of vfs_resolve below a node. */
  function Walk(node: Node, path: string): (r: Option<Place>)
    ensures r.Some? ==> IsPlace(node, r.value)
    decreases |path|
  {
    if path == "" then Some([])
    else
      match FindDir(node, path[..PartLength(path, 0)], 0)
      case None => None
      case Some(i) =>
        match Walk(node.children[i], AfterPart(path))
        case None => None
        case Some(place) => Some([i] + place)
  }

  function ResolvePath(root: Node, path: string): (r: Option<Place>)
    ensures r.Some? ==> IsPlace(root, r.value)
  {
    if path == "" || path[0] != '/' then None else Walk(root, path[1..])
  }

  /** No earlier sibling has the same name, at any level on the way. */
  predicate FirstOfName(node: Node, place: Place)
    requires IsPlace(node, place)
    decreases |place|
  {
    place == [] ||
    ((forall j :: 0 <= j < place[0] ==> node.children[j].name != node.children[place[0]].name)
     && FirstOfName(node.children[place[0]], place[1..]))
  }

  /** A component in front of the rest of a path is read off whole. */
  lemma {:induction false} PartIsName(name: string, tail: string, n: nat)
    requires GoodName(name) && n <= |name| && (tail == "" || tail[0] == '/')
    ensures PartLength(name + tail, n) == |name|
    decreases |name| - n
  {
    if n < |name| {
      assert (name + tail)[n] == name[n] && name[n] in name;
      PartIsName(name, tail, n + 1);
    }
  }

  /** A component longer than 63 characters is looked up as if a slash stood behind its first 63. */
  lemma LongComponent(node: Node, part: string, tail: string)
    requires |part| == 63 && '/' !in part && tail != "" && tail[0] != '/'
    ensures Walk(node, part + tail) == Walk(node, part + "/" + tail)
  {
    LongPart(part, tail, 0);
    LongPart(part, "/" + tail, 0);
    assert part + "/" + tail == part + ("/" + tail);
    assert (part + tail)[..63] == part == (part + ("/" + tail))[..63];
    assert AfterPart(part + tail) == tail == AfterPart(part + ("/" + tail));
  }

  lemma {:induction false} LongPart(part: string, tail: string, n: nat)
    requires |part| == 63 && '/' !in part && n <= 63
    ensures PartLength(part + tail, n) == 63
    decreases 63 - n
  {
    if n < 63 {
      assert (part + tail)[n] == part[n] && part[n] in part;
      LongPart(part, tail, n + 1);
    }
  }

  lemma RelativeStarts(node: Node, place: Place)
    requires IsPlace(node, place)
    ensures Relative(node, place) == "" || Relative(node, place)[0] == '/'
    ensures Relative(node, place) == "" <==> place == []
  {
  }

  /** Looking up the path of a place finds that very place exactly when no earlier sibling hides it. */
  lemma {:induction false} WalkIff(node: Node, place: Place)
    requires GoodTree(node) && IsPlace(node, place) && place != []
    ensures Walk(node, Relative(node, place)[1..]) == Some(place) <==> FirstOfName(node, place)
    decreases |place|
  {
    var i, rest := place[0], place[1..];
    var child := node.children[i];
    var tail := Relative(child, rest);
    var path := Relative(node, place)[1..];
    RelativeStarts(child, rest);
    assert path == child.name + tail;
    PartIsName(child.name, tail, 0);
    assert path[..|child.name|] == child.name;
    assert AfterPart(path) == if tail == "" then "" else tail[1..];
    var found := FindDir(node, child.name, 0);
    assert found.Some?;
    assert place == [i] + rest;
    if found.value == i {
      if rest != [] {
        WalkIff(child, rest);
      }
      assert Walk(child, AfterPart(path)) == Some(rest) <==> FirstOfName(child, rest);
      SamePlace(i, rest, Walk(child, AfterPart(path)));
    } else {
      assert node.children[found.value].name == child.name && found.value < i;
      OtherPlace(node, path, found.value, place);
    }
  }

  lemma SamePlace(i: nat, rest: Place, r: Option<Place>)
    ensures r.Some? ==> ([i] + r.value == [i] + rest <==> r.value == rest)
  {
    if r.Some? {
      assert ([i] + r.value)[1..] == r.value && ([i] + rest)[1..] == rest;
    }
  }

  lemma OtherPlace(node: Node, path: string, j: nat, place: Place)
    requires path != "" && place != [] && FindDir(node, path[..PartLength(path, 0)], 0) == Some(j) && j != place[0]
    ensures Walk(node, path) != Some(place)
  {
  }

  lemma ResolveIff(root: Node, place: Place)
    requires GoodTree(root) && IsPlace(root, place)
    ensures ResolvePath(root, PathOf(root, place)) == Some(place) <==> FirstOfName(root, place)
  {
    if place != [] {
      RelativeStarts(root, place);
      WalkIff(root, place);
    }
  }

  /** Sibling names are unique. */
  predicate UniqueNames(node: Node)
  {
    && (forall i, j :: 0 <= i < j < |node.children| ==> node.children[i].name != node.children[j].name)
    && (forall i :: 0 <= i < |node.children| ==> UniqueNames(node.children[i]))
  }

  lemma {:induction false} UniqueIsFirst(node: Node, place: Place)
    requires UniqueNames(node) && IsPlace(node, place)
    ensures FirstOfName(node, place)
    decreases |place|
  {
    if place != [] {
      UniqueIsFirst(node.children[place[0]], place[1..]);
    }
  }

  // ---------------------------------------------------------------- find_recurse

  /** The path buffer of a child: 255 characters at most. */
  function ChildPath(path: string, name: string): string
    requires path != ""
  {
    var p := path[..Min(|path|, PATH_MAX - 1)];
    var q := if |p| < PATH_MAX - 2 && p[|p| - 1] != '/' then p + "/" else p;
    (q + name)[..Min(|q + name|, PATH_MAX - 1)]
  }

  /** What find_recurse prints for the children of a directory from number i on. */
  function Reports(dir: Node, name: string, path: string, i: nat): seq<string>
    requires path != "" && i <= |dir.children|
    requires GoodTree(dir)
    decreases dir, |dir.children| - i
  {
    if i == |dir.children| then []
    else
      var child := dir.children[i];
      var cpath := ChildPath(path, child.name);
      (if child.name == name then [cpath] else [])
      + (if child.isDir then Reports(child, name, cpath, 0) else [])
      + Reports(dir, name, path, i + 1)
  }

  /** The places of the nodes of the name below a directory, in the same order. */
  function Hits(dir: Node, name: string, i: nat): seq<Place>
    requires i <= |dir.children|
    decreases dir, |dir.children| - i
  {
    if i == |dir.children| then []
    else
      var child := dir.children[i];
      (if child.name == name then [[i]] else []) + Under(i, Hits(child, name, 0)) + Hits(dir, name, i + 1)
  }

  function Under(i: nat, places: seq<Place>): (r: seq<Place>)
    ensures |r| == |places| && forall k :: 0 <= k < |r| ==> r[k] == [i] + places[k]
  {
    seq(|places|, k requires 0 <= k < |places| => [i] + places[k])
  }

  /** The hits are the places of the nodes of that name, each once. */
  lemma {:induction false} HitsAre(dir: Node, name: string, i: nat, place: Place)
    requires i <= |dir.children|
    ensures place in Hits(dir, name, i) <==>
            place != [] && IsPlace(dir, place) && At(dir, place).name == name && place[0] >= i
    decreases dir, |dir.children| - i
  {
    if i < |dir.children| {
      var child := dir.children[i];
      var own: seq<Place> := if child.name == name then [[i]] else [];
      var under, later := Under(i, Hits(child, name, 0)), Hits(dir, name, i + 1);
      assert Hits(dir, name, i) == own + under + later;
      assert place in Hits(dir, name, i) <==> place in own || place in under || place in later;
      HitsAre(dir, name, i + 1, place);
      if place != [] && place[0] == i {
        HitsAre(child, name, 0, place[1..]);
        assert place == [i] + place[1..];
        UnderHas(i, Hits(child, name, 0), place[1..]);
        assert place == [i] <==> place[1..] == [];
        assert IsPlace(dir, place) <==> IsPlace(child, place[1..]);
      } else {
        assert forall k :: 0 <= k < |Under(i, Hits(child, name, 0))| ==> Under(i, Hits(child, name, 0))[k][0] == i;
      }
    }
  }

  lemma UnderHas(i: nat, places: seq<Place>, place: Place)
    ensures [i] + place in Under(i, places) <==> place in places
  {
    if place in places {
      var k :| 0 <= k < |places| && places[k] == place;
      assert Under(i, places)[k] == [i] + place;
    }
    if [i] + place in Under(i, places) {
      var k :| 0 <= k < |places| && Under(i, places)[k] == [i] + place;
      assert ([i] + places[k])[1..] == places[k] && ([i] + place)[1..] == place;
    }
  }

  /** No place is listed twice. */
  lemma {:induction false} HitsDistinct(dir: Node, name: string, i: nat)
    requires i <= |dir.children|
    ensures forall j, k :: 0 <= j < k < |Hits(dir, name, i)| ==> Hits(dir, name, i)[j] != Hits(dir, name, i)[k]
    decreases dir, |dir.children| - i
  {
    if i < |dir.children| {
      var child := dir.children[i];
      var inner := Hits(child, name, 0);
      HitsDistinct(child, name, 0);
      HitsDistinct(dir, name, i + 1);
      UnderDistinct(i, inner);
      HitsAre(child, name, 0, []);
      UnderHas(i, inner, []);
      var own, under, later := if child.name == name then [[i]] else [], Under(i, inner), Hits(dir, name, i + 1);
      forall k | 0 <= k < |later| ensures later[k] != [i] && later[k] !in under {
        HitsAre(dir, name, i + 1, later[k]);
        assert later[k] in later;
      }
      assert [i] + [] == [i];
      DistinctParts(own, under, later);
    }
  }

  lemma UnderDistinct(i: nat, places: seq<Place>)
    requires forall j, k :: 0 <= j < k < |places| ==> places[j] != places[k]
    ensures forall j, k :: 0 <= j < k < |places| ==> Under(i, places)[j] != Under(i, places)[k]
  {
    forall j, k | 0 <= j < k < |places| ensures Under(i, places)[j] != Under(i, places)[k] {
      assert ([i] + places[j])[1..] == places[j] && ([i] + places[k])[1..] == places[k];
    }
  }

  lemma DistinctParts(a: seq<Place>, b: seq<Place>, c: seq<Place>)
    requires |a| <= 1 && (forall j, k :: 0 <= j < k < |b| ==> b[j] != b[k])
    requires forall j, k :: 0 <= j < k < |c| ==> c[j] != c[k]
    requires forall x :: x in a ==> x !in b
    requires forall k :: 0 <= k < |c| ==> c[k] !in a && c[k] !in b
    ensures forall j, k :: 0 <= j < k < |a + b + c| ==> (a + b + c)[j] != (a + b + c)[k]
  {
    var t := a + b + c;
    forall j, k | 0 <= j < k < |t| ensures t[j] != t[k] {
      if k < |a| + |b| {
        if j < |a| {
          assert t[j] == a[j] && a[j] in a && t[k] == b[k - |a|] && b[k - |a|] in b;
        }
      } else {
        assert t[k] == c[k - |a| - |b|];
        assert t[j] == if j < |a| then a[j] else if j < |a| + |b| then b[j - |a|] else c[j - |a| - |b|];
        assert j < |a| ==> a[j] in a;
      }
    }
  }

  lemma {:induction false} ChildPlace(node: Node, place: Place, i: nat)
    requires GoodTree(node) && IsPlace(node, place) && i < |At(node, place).children|
    ensures IsPlace(node, place + [i]) && At(node, place + [i]) == At(node, place).children[i]
    ensures Relative(node, place + [i]) == Relative(node, place) + "/" + At(node, place).children[i].name
    ensures GoodTree(At(node, place)) && GoodName(At(node, place).children[i].name)
    decreases |place|
  {
    if place == [] {
      assert place + [i] == [i] && [i][1..] == [];
    } else {
      ChildPlace(node.children[place[0]], place[1..], i);
      assert (place + [i])[1..] == place[1..] + [i];
    }
  }

  /** No path but the root's ends in a slash. */
  lemma {:induction false} LastChar(node: Node, place: Place)
    requires GoodTree(node) && IsPlace(node, place) && place != []
    ensures var p := Relative(node, place); |p| > 1 && p[|p| - 1] != '/'
    decreases |place|
  {
    var child := node.children[place[0]];
    if place[1..] == [] {
      assert child.name[|child.name| - 1] in child.name;
    } else {
      LastChar(child, place[1..]);
    }
  }

  /** The first nodes on the way to a place are a place too. */
  lemma {:induction false} PrefixPlace(node: Node, place: Place, n: nat)
    requires IsPlace(node, place) && n <= |place|
    ensures IsPlace(node, place[..n])
    decreases n
  {
    if n > 0 {
      PrefixPlace(node.children[place[0]], place[1..], n - 1);
      assert place[..n][1..] == place[1..][..n - 1];
    }
  }

  /** What find_recurse holds as the path of a place, built up buffer by buffer from the root's "/". */
  function Printed(root: Node, place: Place): (path: string)
    requires IsPlace(root, place)
    ensures path != ""
    decreases |place|
  {
    if place == [] then "/"
    else
      PrefixPlace(root, place, |place| - 1);
      ChildPath(Printed(root, place[..|place| - 1]), At(root, place).name)
  }

  lemma PrintedChild(root: Node, place: Place, i: nat)
    requires GoodTree(root) && IsPlace(root, place) && i < |At(root, place).children|
    ensures IsPlace(root, place + [i])
    ensures Printed(root, place + [i]) == ChildPath(Printed(root, place), At(root, place).children[i].name)
  {
    ChildPlace(root, place, i);
    assert (place + [i])[..|place|] == place;
  }

  /** As much of a path as the buffer holds. */
  function Cut(path: string): string
  {
    path[..Min(|path|, PATH_MAX - 1)]
  }

  /** The n-th directory on the way has a path of 254 characters: there is no room for a slash and a character more. */
  predicate Stuck(root: Node, place: Place, n: nat)
  {
    n < |place| && IsPlace(root, place[..n]) && |PathOf(root, place[..n])| == PATH_MAX - 2
  }

  /** Behind the path of a directory comes a slash, and more. */
  lemma {:induction false} PathGrows(root: Node, place: Place, n: nat)
    requires GoodTree(root) && IsPlace(root, place) && 0 < n < |place|
    ensures IsPlace(root, place[..n]) && |PathOf(root, place[..n])| + 2 <= |PathOf(root, place)|
    ensures PathOf(root, place[..n]) + "/" <= PathOf(root, place)
    decreases |place|
  {
    var child, rest := root.children[place[0]], place[1..];
    PrefixPlace(root, place, n);
    assert place[..n][1..] == rest[..n - 1];
    if n == 1 {
      var front := "/" + child.name;
      LastChar(child, rest);
      RelativeStarts(child, rest);
      assert rest[..0] == [] && Relative(child, []) == "";
      assert Relative(root, place[..1]) == front + "";
      assert front + "" == front && Relative(root, place) == front + Relative(child, rest);
      assert "/" <= Relative(child, rest);
    } else {
      PathGrows(child, rest, n - 1);
    }
  }

  /** The path of a child, if its directory's is in the buffer whole. */
  lemma ChildOfWhole(root: Node, front: Place, i: nat)
    requires GoodTree(root) && IsPlace(root, front) && i < |At(root, front).children|
    requires Printed(root, front) == Cut(PathOf(root, front)) && |PathOf(root, front)| != PATH_MAX - 2
    ensures IsPlace(root, front + [i]) && Printed(root, front + [i]) == Cut(PathOf(root, front + [i]))
  {
    hide Printed, Relative;
    PrintedChild(root, front, i);
    ChildPlace(root, front, i);
    RelativeStarts(root, front);
    var p, name := PathOf(root, front), At(root, front).children[i].name;
    if front == [] {
      assert Relative(root, []) == "";
      assert "/"[..1] == "/";
    } else {
      LastChar(root, front);
      assert PathOf(root, front + [i]) == p + "/" + name;
      if |p| < PATH_MAX - 2 {
        assert p[..|p|] == p;
      }
    }
  }

  /** Without room for the slash the child's first character comes behind the directory's path. */
  lemma ChildOfStuck(root: Node, front: Place, i: nat)
    requires GoodTree(root) && IsPlace(root, front) && i < |At(root, front).children|
    requires Printed(root, front) == PathOf(root, front) && |PathOf(root, front)| == PATH_MAX - 2
    ensures IsPlace(root, front + [i]) && GoodName(At(root, front + [i]).name)
    ensures Printed(root, front + [i]) == PathOf(root, front) + [At(root, front + [i]).name[0]]
  {
    hide Printed, PathOf;
    PrintedChild(root, front, i);
    ChildPlace(root, front, i);
  }

  /** A full buffer stays as it is. */
  lemma ChildOfFull(root: Node, front: Place, i: nat)
    requires GoodTree(root) && IsPlace(root, front) && i < |At(root, front).children|
    requires |Printed(root, front)| == PATH_MAX - 1
    ensures IsPlace(root, front + [i]) && Printed(root, front + [i]) == Printed(root, front)
  {
    hide Printed;
    PrintedChild(root, front, i);
  }

  lemma {:induction false} LastStep(root: Node, place: Place)
    requires GoodTree(root) && IsPlace(root, place) && place != []
    ensures var front, i := place[..|place| - 1], place[|place| - 1];
            IsPlace(root, front) && i < |At(root, front).children| && place == front + [i]
    decreases |place|
  {
    var n := |place| - 1;
    PrefixPlace(root, place, n);
    if n > 0 {
      LastStep(root.children[place[0]], place[1..]);
      assert place[..n][1..] == place[1..][..n - 1];
    }
  }

  /** What a directory with a path of 254 characters does to every line below it. */
  ghost predicate Bends(root: Node, place: Place, n: nat)
    requires IsPlace(root, place)
  {
    && Stuck(root, place, n) && IsPlace(root, place[..n + 1]) && GoodName(At(root, place[..n + 1]).name)
    && Printed(root, place) == PathOf(root, place[..n]) + [At(root, place[..n + 1]).name[0]]
  }

  lemma {:induction false} PrintedIs(root: Node, place: Place)
    requires GoodTree(root) && IsPlace(root, place)
    ensures (forall n :: !Stuck(root, place, n)) ==> Printed(root, place) == Cut(PathOf(root, place))
    ensures forall n :: Stuck(root, place, n) ==> Bends(root, place, n)
    decreases |place|
  {
    hide Printed, PathOf, Cut, Bends, Stuck;
    if place == [] {
      NothingStuck(root);
    } else {
      var front, i := place[..|place| - 1], place[|place| - 1];
      LastStep(root, place);
      PrintedIs(root, front);
      if n :| Stuck(root, front, n) {
        BendsOn(root, front, i, n);
      } else if |PathOf(root, front)| == PATH_MAX - 2 {
        BendsFirst(root, front, i);
      } else {
        ChildOfWhole(root, front, i);
        StuckBefore(root, front, i);
      }
    }
  }

  lemma NothingStuck(root: Node)
    ensures forall n :: !Stuck(root, [], n)
    ensures Printed(root, []) == Cut(PathOf(root, []))
  {
  }

  /** The directories on the way to a child are those on the way to its directory, and that directory. */
  lemma StuckBefore(root: Node, front: Place, i: nat)
    requires IsPlace(root, front)
    ensures forall n :: Stuck(root, front + [i], n) <==>
              Stuck(root, front, n) || (n == |front| && |PathOf(root, front)| == PATH_MAX - 2)
  {
    forall n: nat | n <= |front| ensures (front + [i])[..n] == front[..n] {
    }
    assert front[..|front|] == front;
  }

  lemma BendsOn(root: Node, front: Place, i: nat, n: nat)
    requires GoodTree(root) && IsPlace(root, front) && i < |At(root, front).children|
    requires Bends(root, front, n)
    requires forall m :: Stuck(root, front, m) ==> Bends(root, front, m)
    ensures IsPlace(root, front + [i]) && Stuck(root, front + [i], n)
    ensures forall m :: Stuck(root, front + [i], m) ==> Bends(root, front + [i], m)
  {
    hide Printed, PathOf, IsPlace;
    assert n < |front| && |PathOf(root, front[..n])| == PATH_MAX - 2;
    ChildOfFull(root, front, i);
    StuckBefore(root, front, i);
    assert front[..0] == [];
    RootPath(root);
    PathGrows(root, front, n);
    forall m: nat | Stuck(root, front + [i], m) ensures Bends(root, front + [i], m) {
      assert Stuck(root, front, m);
      assert (front + [i])[..m] == front[..m] && (front + [i])[..m + 1] == front[..m + 1];
    }
  }

  lemma RootPath(root: Node)
    ensures PathOf(root, []) == "/"
  {
  }

  lemma BendsFirst(root: Node, front: Place, i: nat)
    requires GoodTree(root) && IsPlace(root, front) && i < |At(root, front).children|
    requires (forall m :: !Stuck(root, front, m)) && Printed(root, front) == Cut(PathOf(root, front))
    requires |PathOf(root, front)| == PATH_MAX - 2
    ensures IsPlace(root, front + [i]) && Stuck(root, front + [i], |front|)
    ensures forall m :: Stuck(root, front + [i], m) ==> Bends(root, front + [i], m)
  {
    hide Printed, PathOf, IsPlace;
    var p := PathOf(root, front);
    assert p[..|p|] == p;
    ChildOfStuck(root, front, i);
    StuckBefore(root, front, i);
    assert (front + [i])[..|front|] == front && (front + [i])[..|front| + 1] == front + [i];
  }

  /** The buffer holds the start of the path exactly if no directory on the way has a path of 254 characters, and the
      whole path exactly if that has fewer than 256. */
  lemma PrintedIff(root: Node, place: Place)
    requires GoodTree(root) && IsPlace(root, place)
    ensures Printed(root, place) == Cut(PathOf(root, place)) <==> forall n :: !Stuck(root, place, n)
    ensures Printed(root, place) == PathOf(root, place) <==> |PathOf(root, place)| < PATH_MAX
    ensures forall n :: Stuck(root, place, n) ==> Bends(root, place, n)
  {
    hide Printed, IsPlace, Relative;
    PrintedIs(root, place);
    RootPath(root);
    assert place[..0] == [];
    var path := PathOf(root, place);
    if n :| Stuck(root, place, n) {
      assert Bends(root, place, n);
      PathGrows(root, place, n);
      var name := At(root, place[..n + 1]).name;
      assert name[0] in name;
      assert path[PATH_MAX - 2] == '/';
      assert Cut(path)[PATH_MAX - 2] == '/';
      assert Printed(root, place)[PATH_MAX - 2] == name[0];
    } else if |path| < PATH_MAX {
      assert path[..|path|] == path;
    }
  }

  /** Below a directory whose path has 254 characters, find prints the path of that directory's sibling whose name is
      one character longer, if there is one; looking the line up leads there. */
  lemma PrintsSibling(root: Node, up: Place, a: nat, i: nat, j: nat)
    requires GoodTree(root) && UniqueNames(root) && IsPlace(root, up)
    requires a < |At(root, up).children| && j < |At(root, up).children|
    requires i < |At(root, up).children[a].children|
    requires var dir := At(root, up).children[a];
             |dir.children[i].name| > 0 && At(root, up).children[j].name == dir.name + [dir.children[i].name[0]]
    requires IsPlace(root, up + [a]) && |PathOf(root, up + [a])| == PATH_MAX - 2
    ensures IsPlace(root, up + [a, i]) && IsPlace(root, up + [j]) && up + [a, i] != up + [j]
    ensures Printed(root, up + [a, i]) == PathOf(root, up + [j])
    ensures ResolvePath(root, Printed(root, up + [a, i])) == Some(up + [j])
  {
    hide Printed, IsPlace, ResolvePath, PathOf, GoodTree, UniqueNames;
    ChildPlace(root, up, a);
    ChildPlace(root, up, j);
    PrintedIff(root, up + [a]);
    ChildOfStuck(root, up + [a], i);
    ChildPlace(root, up + [a], i);
    assert up + [a] + [i] == up + [a, i];
    ChildPathIs(root, up, a);
    ChildPathIs(root, up, j);
    Longer(Relative(root, up), At(root, up).children[a].name, At(root, up + [a]).children[i].name[0]);
    UniqueIsFirst(root, up + [j]);
    ResolveIff(root, up + [j]);
  }

  lemma ChildPathIs(root: Node, up: Place, i: nat)
    requires GoodTree(root) && IsPlace(root, up) && i < |At(root, up).children|
    ensures IsPlace(root, up + [i])
    ensures PathOf(root, up + [i]) == Relative(root, up) + "/" + At(root, up).children[i].name
  {
    ChildPlace(root, up, i);
  }

  lemma Longer(front: string, name: string, c: char)
    ensures front + "/" + (name + [c]) == front + "/" + name + [c]
  {
  }

  /** n times the letter a. */
  function As(n: nat): (s: string)
    ensures |s| == n && forall k :: 0 <= k < n ==> s[k] == 'a'
  {
    seq(n, _ => 'a')
  }

  /** A directory with one entry. */
  function Wrapped(child: Node): Node { Node(As(63), true, [child]) }

  /** A directory of 61 letters, with a file b in it, beside a directory of one letter more. */
  function Pair(): Node
  {
    Node(As(63), true, [Node(As(61), true, [Node("b", false, [])]), Node(As(61) + "b", true, [])])
  }

  function Deep(): Node { Node("", true, [Wrapped(Wrapped(Pair()))]) }

  lemma WrappedGood(child: Node)
    requires GoodTree(child) && UniqueNames(child) && GoodName(child.name)
    ensures GoodTree(Wrapped(child)) && UniqueNames(Wrapped(child)) && GoodName(Wrapped(child).name)
  {
    assert '/' !in As(63);
  }

  lemma PairGood()
    ensures GoodTree(Pair()) && UniqueNames(Pair()) && GoodName(Pair().name)
  {
    assert '/' !in As(61) && '/' !in As(63) && '/' !in As(61) + "b";
    var file := Node("b", false, []);
    assert GoodTree(file) && UniqueNames(file) && GoodName("b");
    var dir := Node(As(61), true, [file]);
    assert GoodTree(dir) && UniqueNames(dir);
    assert GoodTree(Node(As(61) + "b", true, []));
  }

  lemma {:induction false} GoDown(node: Node, i: nat, rest: Place)
    requires i < |node.children| && IsPlace(node.children[i], rest)
    ensures IsPlace(node, [i] + rest) && At(node, [i] + rest) == At(node.children[i], rest)
    ensures Relative(node, [i] + rest) == "/" + node.children[i].name + Relative(node.children[i], rest)
  {
    assert ([i] + rest)[1..] == rest;
  }

  lemma DeepGood()
    ensures GoodTree(Deep()) && UniqueNames(Deep())
  {
    PairGood();
    WrappedGood(Pair());
    WrappedGood(Wrapped(Pair()));
    hide Pair, Wrapped;
  }

  /** Below the three directories on the way. */
  lemma DeepPlace(rest: Place)
    requires IsPlace(Pair(), rest)
    ensures IsPlace(Deep(), [0, 0, 0] + rest) && At(Deep(), [0, 0, 0] + rest) == At(Pair(), rest)
    ensures |Relative(Deep(), [0, 0, 0] + rest)| == 192 + |Relative(Pair(), rest)|
  {
    hide IsPlace, At, Relative;
    GoDown(Wrapped(Pair()), 0, rest);
    GoDown(Wrapped(Wrapped(Pair())), 0, [0] + rest);
    GoDown(Deep(), 0, [0] + ([0] + rest));
    assert [0] + ([0] + ([0] + rest)) == [0, 0, 0] + rest;
  }

  lemma PairPlaces()
    ensures var pair := Pair();
            && IsPlace(pair, []) && At(pair, []) == pair
            && IsPlace(pair, [0]) && |Relative(pair, [0])| == 62
            && IsPlace(pair, [0, 0]) && At(pair, [0, 0]) == Node("b", false, [])
            && IsPlace(pair, [1])
  {
    var pair := Pair();
    var dir := pair.children[0];
    GoDown(pair, 0, []);
    GoDown(dir, 0, []);
    GoDown(pair, 0, [0]);
    GoDown(pair, 1, []);
    assert [0] + [] == [0] && [1] + [] == [1] && [0] + [0] == [0, 0];
  }

  /** A tree on which the line that find prints for a file named b leads to another directory. */
  lemma PrintsWrongPath()
    ensures var root, place: Place := Deep(), [0, 0, 0, 0, 0];
            && GoodTree(root) && UniqueNames(root) && IsPlace(root, place) && At(root, place).name == "b"
            && ResolvePath(root, Printed(root, place)) == Some([0, 0, 0, 1])
  {
    hide GoodTree, UniqueNames, IsPlace, At, Relative, Printed, ResolvePath, Deep;
    DeepGood();
    PairPlaces();
    DeepPlace([]);
    DeepPlace([0]);
    DeepPlace([0, 0]);
    var up: Place := [0, 0, 0];
    assert up + [] == up && up + [0, 0] == [0, 0, 0, 0, 0] && up + [1] == [0, 0, 0, 1];
    PrintsSibling(Deep(), up, 0, 0, 1);
  }

  /** One line for each hit, in order: what the buffer holds as its path. */
  predicate Lists(root: Node, place: Place, hits: seq<Place>, lines: seq<string>)
  {
    && |lines| == |hits|
    && forall k :: 0 <= k < |hits| ==> IsPlace(root, place + hits[k]) && lines[k] == Printed(root, place + hits[k])
  }

  lemma ListsBoth(root: Node, place: Place, h1: seq<Place>, l1: seq<string>, h2: seq<Place>, l2: seq<string>)
    requires Lists(root, place, h1, l1) && Lists(root, place, h2, l2)
    ensures Lists(root, place, h1 + h2, l1 + l2)
  {
    hide Printed, IsPlace;
    var h, l := h1 + h2, l1 + l2;
    forall k | 0 <= k < |h| ensures IsPlace(root, place + h[k]) && l[k] == Printed(root, place + h[k]) {
      if k < |h1| {
        assert h[k] == h1[k] && l[k] == l1[k];
      } else {
        assert h[k] == h2[k - |h1|] && l[k] == l2[k - |h1|];
      }
    }
  }

  lemma ListsUnder(root: Node, place: Place, i: nat, hits: seq<Place>, lines: seq<string>)
    requires Lists(root, place + [i], hits, lines)
    ensures Lists(root, place, Under(i, hits), lines)
  {
    hide Printed, IsPlace;
    forall k | 0 <= k < |hits| ensures place + Under(i, hits)[k] == place + [i] + hits[k] {
      assert place + [i] + hits[k] == place + ([i] + hits[k]);
    }
  }

  lemma {:induction false} ReportsAreHits(root: Node, place: Place, name: string, i: nat)
    requires GoodTree(root) && IsPlace(root, place) && i <= |At(root, place).children|
    requires GoodTree(At(root, place))
    ensures Lists(root, place, Hits(At(root, place), name, i),
                  Reports(At(root, place), name, Printed(root, place), i))
    decreases At(root, place), |At(root, place).children| - i
  {
    hide Lists, ChildPath, Printed, Relative;
    var dir, path := At(root, place), Printed(root, place);
    if i == |dir.children| {
      ListsNone(root, place);
    } else {
      var child := dir.children[i];
      var cpath := ChildPath(path, child.name);
      ChildPlace(root, place, i);
      PrintedChild(root, place, i);
      ReportsAreHits(root, place, name, i + 1);
      ReportsAreHits(root, place + [i], name, 0);
      var own, ownLine := if child.name == name then [[i]] else [], if child.name == name then [cpath] else [];
      ListsOwn(root, place, i, cpath, own, ownLine);
      ListsUnder(root, place, i, Hits(child, name, 0), Reports(child, name, cpath, 0));
      ListsBoth(root, place, own, ownLine, Under(i, Hits(child, name, 0)), Reports(child, name, cpath, 0));
      ListsBoth(root, place, own + Under(i, Hits(child, name, 0)), ownLine + Reports(child, name, cpath, 0),
                Hits(dir, name, i + 1), Reports(dir, name, path, i + 1));
      FileReportsNothing(child, name, cpath);
    }
  }

  lemma ListsNone(root: Node, place: Place)
    ensures Lists(root, place, [], [])
  {
  }

  lemma ListsOwn(root: Node, place: Place, i: nat, cpath: string, own: seq<Place>, line: seq<string>)
    requires IsPlace(root, place + [i]) && cpath == Printed(root, place + [i])
    requires (own == [] && line == []) || (own == [[i]] && line == [cpath])
    ensures Lists(root, place, own, line)
  {
    hide Printed, IsPlace;
  }

  lemma FileReportsNothing(node: Node, name: string, path: string)
    requires GoodTree(node) && path != ""
    ensures !node.isDir ==> Reports(node, name, path, 0) == []
  {
  }

  /** The shell's find: one line for each node of the name. The line starts the node's path exactly if no directory on
      the way has a path of 254 characters; it is the whole path exactly if that fits the buffer, and vfs_resolve then
      takes it back to the very node when sibling names are unique. */
  lemma FindResolves(root: Node, name: string)
    requires GoodTree(root) && UniqueNames(root)
    ensures var hits, lines := Hits(root, name, 0), Reports(root, name, "/", 0);
            && |lines| == |hits|
            && (forall k :: 0 <= k < |hits| ==>
                 && IsPlace(root, hits[k])
                 && (lines[k] == Cut(PathOf(root, hits[k])) <==> forall n :: !Stuck(root, hits[k], n))
                 && (lines[k] == PathOf(root, hits[k]) <==> |PathOf(root, hits[k])| < PATH_MAX)
                 && (|PathOf(root, hits[k])| < PATH_MAX ==> ResolvePath(root, lines[k]) == Some(hits[k])))
  {
    hide PathOf, IsPlace, Cut, Stuck, ResolvePath, Reports, Hits, GoodTree, UniqueNames;
    var hits, lines := Hits(root, name, 0), Reports(root, name, "/", 0);
    WholeTree(root, name);
    forall k | 0 <= k < |hits|
      ensures IsPlace(root, hits[k]) && lines[k] == Printed(root, hits[k])
      ensures lines[k] == Cut(PathOf(root, hits[k])) <==> forall n :: !Stuck(root, hits[k], n)
      ensures lines[k] == PathOf(root, hits[k]) <==> |PathOf(root, hits[k])| < PATH_MAX
      ensures ResolvePath(root, PathOf(root, hits[k])) == Some(hits[k])
    {
      assert [] + hits[k] == hits[k];
      PrintedIff(root, hits[k]);
      UniqueIsFirst(root, hits[k]);
      ResolveIff(root, hits[k]);
    }
  }

  lemma WholeTree(root: Node, name: string)
    requires GoodTree(root)
    ensures Lists(root, [], Hits(root, name, 0), Reports(root, name, "/", 0))
  {
    hide Lists, Reports, Hits;
    ReportsAreHits(root, [], name, 0);
  }

  // ---------------------------------------------------------------- the loops

  /** ramfs_finddir. */
  method FindChild(dir: Node, name: string) returns (r: Option<nat>)
    ensures r == FindDir(dir, name, 0)
  {
    var i := 0;
    while i < |dir.children|
      invariant i <= |dir.children|
      invariant FindDir(dir, name, 0) == FindDir(dir, name, i)
    {
      if dir.children[i].name == name {
        return Some(i);
      }
      i := i + 1;
    }
    r := None;
  }

  /** vfs_resolve: the node's place, or None. */
  method VfsResolve(root: Node, path: string) returns (r: Option<Place>)
    ensures r == ResolvePath(root, path)
  {
    if path == "" || path[0] != '/' {
      return None;
    }
    var rest, cur, place: Place := path[1..], root, [];
    assert ResolvePath(root, path) == Extended(place, Walk(cur, rest)) by {
      ExtendedNone(Walk(cur, rest));
    }
    while rest != ""
      invariant ResolvePath(root, path) == Extended(place, Walk(cur, rest))
      decreases |rest|
    {
      var part;
      ghost var whole := rest;
      part, rest := NextPart(rest);
      var found := FindChild(cur, part);
      if found.None? {
        return None;
      }
      ExtendedTwice(place, found.value, Walk(cur.children[found.value], rest));
      place := place + [found.value];
      cur := cur.children[found.value];
    }
    assert place + [] == place;
    r := Some(place);
  }

  function Extended(place: Place, tail: Option<Place>): Option<Place>
  {
    match tail
    case None => None
    case Some(t) => Some(place + t)
  }

  lemma ExtendedNone(tail: Option<Place>)
    ensures Extended([], tail) == tail
  {
    if tail.Some? {
      assert [] + tail.value == tail.value;
    }
  }

  lemma ExtendedTwice(place: Place, i: nat, tail: Option<Place>)
    ensures Extended(place, Extended([i], tail)) == Extended(place + [i], tail)
  {
    if tail.Some? {
      assert place + ([i] + tail.value) == place + [i] + tail.value;
    }
  }

  /** The inner loop of vfs_resolve: one component into the part buffer, and the slash behind it skipped. */
  method NextPart(path: string) returns (part: string, rest: string)
    ensures part == path[..PartLength(path, 0)] && rest == AfterPart(path)
  {
    part := "";
    var i := 0;
    while i < |path| && path[i] != '/' && i < NAME_MAX - 1
      invariant i <= |path| && i < NAME_MAX && part == path[..i]
      invariant PartLength(path, 0) == PartLength(path, i)
    {
      part := part + [path[i]];
      i := i + 1;
    }
    rest := path[i..];
    if i < |path| && path[i] == '/' {
      rest := path[i + 1..];
    }
  }

  /** find_recurse: the lines printed so far and the count go on from the caller's. */
  method FindRecurse(dir: Node, name: string, path: string, printed: seq<string>, found: nat)
    returns (printed1: seq<string>, found1: nat)
    requires GoodTree(dir) && path != ""
    ensures printed1 == printed + Reports(dir, name, path, 0)
    ensures found1 == found + |Reports(dir, name, path, 0)|
    decreases dir
  {
    hide Reports, ChildPath;
    printed1, found1 := printed, found;
    ghost var all := Reports(dir, name, path, 0);
    var i := 0;
    while i < |dir.children|
      invariant i <= |dir.children|
      invariant printed1 + Reports(dir, name, path, i) == printed + all
      invariant found1 + |Reports(dir, name, path, i)| == found + |all|
    {
      ghost var before, count := printed1, found1;
      var child := dir.children[i];
      var cpath := PathBuffer(path, child.name);
      ReportsStep(dir, name, path, i);
      if child.name == name {
        printed1, found1 := printed1 + [cpath], found1 + 1;
      }
      if child.isDir {
        printed1, found1 := FindRecurse(child, name, cpath, printed1, found1);
      }
      var own, inner := if child.name == name then [cpath] else [],
                        if child.isDir then Reports(child, name, cpath, 0) else [];
      Appended(before, own, inner, Reports(dir, name, path, i + 1));
      assert printed1 == before + own + inner && found1 == count + |own| + |inner|;
      i := i + 1;
    }
    NoReports(dir, name, path);
  }

  lemma ReportsStep(dir: Node, name: string, path: string, i: nat)
    requires GoodTree(dir) && path != "" && i < |dir.children|
    ensures var child := dir.children[i];
            var cpath := ChildPath(path, child.name);
            && cpath != "" && GoodTree(child)
            && Reports(dir, name, path, i) == (if child.name == name then [cpath] else [])
                                              + (if child.isDir then Reports(child, name, cpath, 0) else [])
                                              + Reports(dir, name, path, i + 1)
  {
  }

  lemma NoReports(dir: Node, name: string, path: string)
    requires GoodTree(dir) && path != ""
    ensures Reports(dir, name, path, |dir.children|) == []
  {
  }

  lemma Appended(before: seq<string>, own: seq<string>, inner: seq<string>, later: seq<string>)
    ensures before + own + inner + later == before + (own + inner + later)
  {
  }

  /** The path buffer that find_recurse builds for a child. */
  method PathBuffer(path: string, name: string) returns (cpath: string)
    requires path != ""
    ensures cpath == ChildPath(path, name)
  {
    cpath := path[..Min(|path|, PATH_MAX - 1)];
    if |cpath| < PATH_MAX - 2 && cpath[|cpath| - 1] != '/' {
      cpath := cpath + "/";
    }
    cpath := (cpath + name)[..Min(|cpath + name|, PATH_MAX - 1)];
  }
}
