/** The directories form a tree: every chain of parents ends at the root. */
module NamespaceTrees {
  import opened Namespaces
  import opened NamespaceCounts

  /** Parent by parent from path[0] up to the root. */
  ghost predicate IsPath(d: map<DirKey, nat>, path: seq<nat>) {
    && |path| > 0 && path[|path| - 1] == ROOT
    && forall i :: 0 <= i < |path| - 1 ==> IsParent(d, path[i], path[i + 1])
  }

  ghost predicate Rooted(d: map<DirKey, nat>, x: nat) {
    exists path :: IsPath(d, path) && path[0] == x
  }

  ghost predicate IsTree(s: Names) {
    forall x :: IsDirectory(s.nodes, x) ==> Rooted(s.dirents, x)
  }

  // ----- paths

  lemma PathTail(d: map<DirKey, nat>, path: seq<nat>, i: nat)
    requires IsPath(d, path) && i < |path|
    ensures IsPath(d, path[i..])
  {
    var tail := path[i..];
    forall k | 0 <= k < |tail| - 1
      ensures IsParent(d, tail[k], tail[k + 1])
    {
      assert IsParent(d, path[i + k], path[i + k + 1]);
    }
  }

  lemma {:induction false} PathDirs(s: Names, path: seq<nat>, i: nat)
    requires Sound(s) && IsPath(s.dirents, path) && i < |path| && IsDirectory(s.nodes, path[0])
    ensures IsDirectory(s.nodes, path[i])
  {
    if i > 0 {
      PathDirs(s, path, i - 1);
      assert IsParent(s.dirents, path[i - 1], path[i - 1 + 1]);
    }
  }

  /** Two paths from one directory agree as far as both go. */
  lemma {:induction false} PathsAgree(s: Names, p: seq<nat>, q: seq<nat>, i: nat)
    requires Sound(s) && IsPath(s.dirents, p) && IsPath(s.dirents, q) && p[0] == q[0] && IsDirectory(s.nodes, p[0])
    requires i < |p| && i < |q|
    ensures p[i] == q[i]
  {
    if i > 0 {
      PathsAgree(s, p, q, i - 1);
      PathDirs(s, p, i - 1);
      assert IsParent(s.dirents, p[i - 1], p[i - 1 + 1]) && IsParent(s.dirents, q[i - 1], q[i - 1 + 1]);
      OneParent(s, p[i - 1], p[i]);
    }
  }

  lemma RootLast(s: Names, path: seq<nat>)
    requires Sound(s) && IsPath(s.dirents, path)
    ensures forall i :: 0 <= i < |path| - 1 ==> path[i] != ROOT
  {
    forall i | 0 <= i < |path| - 1
      ensures path[i] != ROOT
    {
      assert IsParent(s.dirents, path[i], path[i + 1]);
    }
  }

  /** The root has no parent, so paths from one directory are equal. */
  lemma PathUnique(s: Names, p: seq<nat>, q: seq<nat>)
    requires Sound(s) && IsPath(s.dirents, p) && IsPath(s.dirents, q) && p[0] == q[0] && IsDirectory(s.nodes, p[0])
    ensures p == q
  {
    var n := if |p| < |q| then |p| else |q|;
    forall i | 0 <= i < n
      ensures p[i] == q[i]
    {
      PathsAgree(s, p, q, i);
    }
    RootLast(s, p);
    RootLast(s, q);
    assert p[n - 1] == q[n - 1];
  }

  /** The walk finds root exactly if it is among the first n proper ancestors. */
  lemma {:induction false} DescendsExactly(s: Names, path: seq<nat>, root: nat, n: nat)
    requires Sound(s) && IsPath(s.dirents, path) && IsDirectory(s.nodes, path[0])
    ensures Descends(s.dirents, path[0], root, n) <==> exists i :: 0 < i < |path| && i <= n && path[i] == root
    decreases n
  {
    if n > 0 && |path| > 1 {
      assert IsParent(s.dirents, path[0], path[0 + 1]);
      OneParent(s, path[0], path[1]);
      PathTail(s.dirents, path, 1);
      DescendsExactly(s, path[1..], root, n - 1);
      ShiftFound(path, root, n);
      assert path[0] != ROOT;
    }
  }

  lemma ShiftFound(path: seq<nat>, root: nat, n: nat)
    requires |path| > 1 && n > 0
    ensures (exists i :: 0 < i < |path| && i <= n && path[i] == root)
            <==> path[1] == root || exists i :: 0 < i < |path[1..]| && i <= n - 1 && path[1..][i] == root
  {
    if i :| 0 < i < |path| && i <= n && path[i] == root {
      assert i == 1 || path[1..][i - 1] == root;
    }
    if i :| 0 < i < |path[1..]| && i <= n - 1 && path[1..][i] == root {
      assert path[i + 1] == root;
    }
  }

  /** A path stays one while none of its steps is taken away. */
  lemma KeptPath(d: map<DirKey, nat>, e: map<DirKey, nat>, path: seq<nat>)
    requires IsPath(d, path) && forall k :: k in d && d[k] in path ==> k in e && e[k] == d[k]
    ensures IsPath(e, path)
  {
    forall i | 0 <= i < |path| - 1
      ensures IsParent(e, path[i], path[i + 1])
    {
      assert IsParent(d, path[i], path[i + 1]);
    }
  }

  // ----- the operations that move no directory

  lemma RootedKept(s: Names, e: map<DirKey, nat>, x: nat)
    requires Sound(s) && IsTree(s) && IsDirectory(s.nodes, x)
    requires forall k :: k in s.dirents && IsDirectory(s.nodes, s.dirents[k]) ==> k in e && e[k] == s.dirents[k]
    ensures Rooted(e, x)
  {
    var path :| IsPath(s.dirents, path) && path[0] == x;
    forall k | k in s.dirents && s.dirents[k] in path
      ensures IsDirectory(s.nodes, s.dirents[k])
    {
      var i :| 0 <= i < |path| && path[i] == s.dirents[k];
      PathDirs(s, path, i);
    }
    KeptPath(s.dirents, e, path);
  }

  lemma StillTree(s: Names, op: Op)
    requires Good(s) && IsTree(s) && !op.Rename? && !op.Rmdir?
    ensures IsTree(Apply(s, op).after)
  {
    hide FileCounts, Rooted;
    var n := Apply(s, op).after;
    forall x | IsDirectory(n.nodes, x)
      ensures Rooted(n.dirents, x)
    {
      if x in s.nodes {
        RootedKept(s, n.dirents, x);
      } else {
        RootedKept(s, n.dirents, op.at.parent);
        RootedBelow(n.dirents, x, op.at.parent);
      }
    }
  }

  lemma RootedBelow(d: map<DirKey, nat>, x: nat, y: nat)
    requires IsParent(d, x, y) && Rooted(d, y)
    ensures Rooted(d, x)
  {
    var path :| IsPath(d, path) && path[0] == y;
    var longer := [x] + path;
    forall i | 0 <= i < |longer| - 1
      ensures IsParent(d, longer[i], longer[i + 1])
    {
      assert i > 0 ==> IsParent(d, path[i - 1], path[i - 1 + 1]);
    }
    assert IsPath(d, longer);
  }

  /** Nothing goes up through a directory without children. */
  lemma AvoidsEmpty(s: Names, path: seq<nat>, x: nat)
    requires IsPath(s.dirents, path) && !HasChildren(s.dirents, x)
    ensures forall i :: 0 < i < |path| ==> path[i] != x
  {
    forall i | 0 < i < |path|
      ensures path[i] != x
    {
      assert IsParent(s.dirents, path[i - 1], path[i - 1 + 1]);
    }
  }

  lemma DirRemovedTree(s: Names, k: DirKey)
    requires Good(s) && IsTree(s)
    ensures IsTree(DirRemoved(s, k).after)
  {
    hide FileCounts;
    var n := DirRemoved(s, k).after;
    if DirRemoved(s, k).status == Ok {
      forall x | IsDirectory(n.nodes, x)
        ensures Rooted(n.dirents, x)
      {
        assert Rooted(s.dirents, x);
        var path :| IsPath(s.dirents, path) && path[0] == x;
        AvoidsEmpty(s, path, s.dirents[k]);
        KeptPath(s.dirents, n.dirents, path);
      }
    }
  }

  // ----- rename

  /** x's chain of parents, x included, meets y. */
  ghost predicate Above(d: map<DirKey, nat>, y: nat, x: nat) {
    exists path :: IsPath(d, path) && path[0] == x && y in path
  }

  /** A path that meets neither the moved nor the replaced directory survives. */
  lemma AvoidingPath(s: Names, j: DirKey, k: DirKey, path: seq<nat>)
    requires Good(s) && Moves(s, j, k) && IsPath(s.dirents, path) && s.dirents[j] !in path
    requires k in s.dirents ==> s.dirents[k] !in path
    ensures IsPath(Renamed(s, j, k).after.dirents, path)
  {
    hide FileCounts, Descends;
    KeptPath(s.dirents, Renamed(s, j, k).after.dirents, path);
  }

  /** The replaced node is on no other directory's path. */
  lemma ReplacedOffPath(s: Names, j: DirKey, k: DirKey, path: seq<nat>)
    requires Good(s) && Moves(s, j, k) && k in s.dirents && IsPath(s.dirents, path) && IsDirectory(s.nodes, path[0])
    requires path[0] != s.dirents[k]
    ensures s.dirents[k] !in path
  {
    RenamedShape(s, j, k);
    forall i | 0 <= i < |path|
      ensures IsDirectory(s.nodes, path[i])
    {
      PathDirs(s, path, i);
    }
    if IsDirectory(s.nodes, s.dirents[k]) {
      AvoidsEmpty(s, path, s.dirents[k]);
    }
  }

  lemma NewParentRooted(s: Names, j: DirKey, k: DirKey)
    requires Good(s) && IsTree(s) && Moves(s, j, k) && !Above(s.dirents, s.dirents[j], k.parent)
    ensures Rooted(Renamed(s, j, k).after.dirents, k.parent)
  {
    RenamedShape(s, j, k);
    var path :| IsPath(s.dirents, path) && path[0] == k.parent;
    if k in s.dirents {
      if IsDirectory(s.nodes, s.dirents[k]) {
        assert s.dirents[k] != k.parent;
      }
      ReplacedOffPath(s, j, k, path);
    }
    AvoidingPath(s, j, k, path);
  }

  /** Every directory that stays climbs to the root, by its old path or over the moved directory. */
  lemma {:induction false} ClimbsAgain(s: Names, j: DirKey, k: DirKey, path: seq<nat>)
    requires Good(s) && Moves(s, j, k) && IsPath(s.dirents, path) && IsDirectory(s.nodes, path[0])
    requires Rooted(Renamed(s, j, k).after.dirents, k.parent) && (k in s.dirents ==> path[0] != s.dirents[k])
    ensures Rooted(Renamed(s, j, k).after.dirents, path[0])
    decreases |path|
  {
    var e := Renamed(s, j, k).after.dirents;
    RenamedShape(s, j, k);
    if path[0] == s.dirents[j] {
      assert k in e && e[k] == path[0];
      RootedBelow(e, path[0], k.parent);
    } else if |path| == 1 {
      assert IsPath(e, path);
    } else {
      assert IsParent(s.dirents, path[0], path[0 + 1]);
      PathTail(s.dirents, path, 1);
      OneParent(s, path[0], path[1]);
      if k in s.dirents {
        ReplacedOffPath(s, j, k, path);
      }
      ClimbsAgain(s, j, k, path[1..]);
      KeptParent(s, j, k, path[0], path[1]);
      RootedBelow(e, path[0], path[1]);
    }
  }

  lemma KeptParent(s: Names, j: DirKey, k: DirKey, x: nat, y: nat)
    requires Good(s) && Moves(s, j, k) && IsParent(s.dirents, x, y) && x != s.dirents[j]
    requires (k in s.dirents ==> x != s.dirents[k])
    ensures IsParent(Renamed(s, j, k).after.dirents, x, y)
  {
    hide FileCounts, Descends;
    RenamedShape(s, j, k);
    var i :| i in s.dirents && i.parent == y && s.dirents[i] == x;
    assert i in Renamed(s, j, k).after.dirents;
  }

  /** The walk overlooks that the moved directory is above its new parent: it is further up than the walk goes. */
  ghost predicate LoopsBack(s: Names, j: DirKey, k: DirKey) {
    Moves(s, j, k) && j in s.dirents && IsDirectory(s.nodes, s.dirents[j])
    && exists path, i :: IsPath(s.dirents, path) && path[0] == k.parent && WALK_LIMIT < i < |path|
        && path[i] == s.dirents[j]
  }

  lemma NotAbove(s: Names, j: DirKey, k: DirKey)
    requires Good(s) && Moves(s, j, k) && !LoopsBack(s, j, k)
    ensures j in s.dirents && !Above(s.dirents, s.dirents[j], k.parent)
  {
    RenamedShape(s, j, k);
    var src := s.dirents[j];
    forall path | IsPath(s.dirents, path) && path[0] == k.parent
      ensures src !in path
    {
      forall i | 0 <= i < |path|
        ensures path[i] != src
      {
        PathDirs(s, path, i);
        DescendsExactly(s, path, src, WALK_LIMIT);
      }
    }
  }

  lemma RenamedTree(s: Names, j: DirKey, k: DirKey)
    requires Good(s) && IsTree(s) && Moves(s, j, k) && !LoopsBack(s, j, k)
    ensures IsTree(Renamed(s, j, k).after)
  {
    NotAbove(s, j, k);
    RenamedShape(s, j, k);
    NewParentRooted(s, j, k);
    var n := Renamed(s, j, k).after;
    forall x | IsDirectory(n.nodes, x)
      ensures Rooted(n.dirents, x)
    {
      StaysDirectory(s, j, k, x);
      assert Rooted(s.dirents, x);
      var path :| IsPath(s.dirents, path) && path[0] == x;
      ClimbsAgain(s, j, k, path);
    }
  }

  lemma StaysDirectory(s: Names, j: DirKey, k: DirKey, x: nat)
    requires Good(s) && Moves(s, j, k)
    ensures IsDirectory(Renamed(s, j, k).after.nodes, x) <==>
      IsDirectory(s.nodes, x) && (k in s.dirents ==> s.dirents[k] != x)
  {
    RenamedShape(s, j, k);
  }

  lemma {:induction false} StaysIn(d: map<DirKey, nat>, c: set<nat>, path: seq<nat>, i: nat)
    requires IsPath(d, path) && i < |path| && path[0] in c && forall x, y :: x in c && IsParent(d, x, y) ==> y in c
    ensures path[i] in c
  {
    if i > 0 {
      StaysIn(d, c, path, i - 1);
      assert IsParent(d, path[i - 1], path[i - 1 + 1]);
    }
  }

  /** A directory moved below itself hangs in a loop: no path leads from it to the root. */
  lemma LoopUnrooted(s: Names, j: DirKey, k: DirKey)
    requires Good(s) && LoopsBack(s, j, k)
    ensures !Rooted(Renamed(s, j, k).after.dirents, s.dirents[j])
  {
    var path, m :| IsPath(s.dirents, path) && path[0] == k.parent && WALK_LIMIT < m < |path| && path[m] == s.dirents[j];
    var e := Renamed(s, j, k).after.dirents;
    var loop := set i | 0 <= i <= m :: path[i];
    RenamedShape(s, j, k);
    RootLast(s, path);
    assert ROOT !in loop;
    forall x, y | x in loop && IsParent(e, x, y)
      ensures y in loop
    {
      var i :| 0 <= i <= m && path[i] == x;
      PathDirs(s, path, i);
      ParentInLoop(s, j, k, path, m, i, y);
    }
    forall p | IsPath(e, p)
      ensures p[0] != s.dirents[j]
    {
      if p[0] == s.dirents[j] {
        StaysIn(e, loop, p, |p| - 1);
      }
    }
  }

  lemma ParentInLoop(s: Names, j: DirKey, k: DirKey, path: seq<nat>, m: nat, i: nat, y: nat)
    requires Good(s) && Moves(s, j, k) && IsPath(s.dirents, path) && path[0] == k.parent && i <= m < |path|
    requires j in s.dirents && path[m] == s.dirents[j] && IsDirectory(s.nodes, path[i])
    requires IsParent(Renamed(s, j, k).after.dirents, path[i], y)
    ensures (path[i] == s.dirents[j] && y == path[0]) || (i < m && y == path[i + 1])
  {
    RenamedShape(s, j, k);
    hide FileCounts, Descends;
    var e := Renamed(s, j, k).after.dirents;
    var a :| a in e && a.parent == y && e[a] == path[i];
    if a == k {
      assert path[i] == s.dirents[j];
    } else {
      assert a in s.dirents && s.dirents[a] == path[i] && a != j;
      assert path[i] != s.dirents[j];
      assert IsParent(s.dirents, path[i], path[i + 1]);
      assert IsParent(s.dirents, path[i], y);
      OneParent(s, path[i], y);
    }
  }

  /** A rename keeps the tree exactly if it is not one of those the walk overlooks. */
  lemma RenameTreeIff(s: Names, j: DirKey, k: DirKey)
    requires Good(s) && IsTree(s)
    ensures IsTree(Renamed(s, j, k).after) <==> !LoopsBack(s, j, k)
  {
    if LoopsBack(s, j, k) {
      LoopUnrooted(s, j, k);
      StaysDirectory(s, j, k, s.dirents[j]);
      assert IsDirectory(Renamed(s, j, k).after.nodes, s.dirents[j]);
    } else if Moves(s, j, k) {
      RenamedTree(s, j, k);
    }
  }

  /** Below a new parent at depth at most 1000 the walk is complete. */
  lemma ShallowIsSafe(s: Names, j: DirKey, k: DirKey, path: seq<nat>)
    requires Good(s) && IsPath(s.dirents, path) && path[0] == k.parent && |path| - 1 <= WALK_LIMIT
    requires IsDirectory(s.nodes, k.parent)
    ensures !LoopsBack(s, j, k)
  {
    forall p | IsPath(s.dirents, p) && p[0] == k.parent
      ensures p == path
    {
      PathUnique(s, p, path);
    }
  }

  /** One operation keeps the tree unless it is such a rename. */
  lemma TreeKept(s: Names, op: Op)
    requires Good(s) && IsTree(s)
    ensures IsTree(Apply(s, op).after) <==> !(op.Rename? && LoopsBack(s, op.from, op.at))
  {
    hide IsTree, Good, LoopsBack;
    if op.Rename? {
      RenameTreeIff(s, op.from, op.at);
    } else if op.Rmdir? {
      DirRemovedTree(s, op.at);
    } else {
      StillTree(s, op);
    }
  }

  /** The directories are a tree with the root on top: every other directory has exactly one entry. */
  lemma OneEntryEach(s: Names, x: nat)
    requires Good(s) && IsTree(s) && IsDirectory(s.nodes, x)
    ensures x == ROOT ==> EntriesOf(s.dirents, x) == {}
    ensures x != ROOT ==> exists k :: EntriesOf(s.dirents, x) == {k}
  {
    if x != ROOT {
      assert Rooted(s.dirents, x);
      var path :| IsPath(s.dirents, path) && path[0] == x;
      assert IsParent(s.dirents, path[0], path[0 + 1]);
      var k :| k in s.dirents && k.parent == path[1] && s.dirents[k] == x;
      assert EntriesOf(s.dirents, x) == {k};
    }
  }

  /** Every run without such a rename ends in a tree. */
  lemma {:induction false} TreeOnEveryRun(states: seq<Names>, ops: seq<Op>, k: nat)
    requires NamesRun(states, ops) && k < |states|
    requires forall i :: 0 <= i < k && ops[i].Rename? ==> !LoopsBack(states[i], ops[i].from, ops[i].at)
    ensures Good(states[k]) && IsTree(states[k])
    decreases k
  {
    LinkCountsOnEveryRun(states, ops, k);
    hide IsTree, Good, LoopsBack, Apply;
    if k == 0 {
      EmptyTree();
    } else {
      TreeOnEveryRun(states, ops, k - 1);
      TreeKept(states[k - 1], ops[k - 1]);
      assert states[k - 1 + 1] == Apply(states[k - 1], ops[k - 1]).after;
    }
  }

  lemma EmptyTree()
    ensures IsTree(EMPTY_NAMES)
  {
    assert IsPath(EMPTY_NAMES.dirents, [ROOT]);
  }

  // ----- a chain deeper than the walk

  ghost function ChainNode(n: nat, i: nat): Node { Node(Directory, if i < n then 3 else 2) }

  /** Directories 1 to n, each inside the one before, all named d. */
  ghost function Chain(n: nat): Names
    requires n > 1
  {
    Names(map i: nat | 1 <= i <= n :: ChainNode(n, i),
          map i: nat | 1 <= i < n :: DirKey(i, "d") := i + 1, n + 1)
  }

  lemma ChainParent(n: nat, x: nat, y: nat)
    requires n > 1
    ensures IsParent(Chain(n).dirents, x, y) <==> 1 <= y < n && x == y + 1
  {
    if 1 <= y < n && x == y + 1 {
      assert DirKey(y, "d") in Chain(n).dirents;
    }
  }

  lemma ChainTree(n: nat)
    requires n > 1
    ensures Good(Chain(n)) && IsTree(Chain(n))
  {
    var s := Chain(n);
    forall x | IsDirectory(s.nodes, x)
      ensures Rooted(s.dirents, x)
    {
      ChainPath(n, x);
    }
  }

  lemma ChainPath(n: nat, x: nat)
    requires 1 <= x <= n && n > 1
    ensures IsPath(Chain(n).dirents, seq(x, i requires 0 <= i < x => x - i))
  {
    var path := seq(x, i requires 0 <= i < x => x - i);
    forall i | 0 <= i < |path| - 1
      ensures IsParent(Chain(n).dirents, path[i], path[i + 1])
    {
      ChainParent(n, path[i], path[i + 1]);
    }
  }

  lemma {:induction false} ChainWalk(n: nat, x: nat, m: nat)
    requires n > 1 && m + 2 < x <= n
    ensures !Descends(Chain(n).dirents, x, 2, m)
    decreases m
  {
    forall y | IsParent(Chain(n).dirents, x, y)
      ensures y == x - 1
    {
      ChainParent(n, x, y);
    }
    if m > 0 {
      ChainWalk(n, x - 1, m - 1);
    }
  }

  /** rename(/d, /d/.../d/d) into a directory 1001 levels further down succeeds and cuts the tree apart. */
  lemma DeepRenameLoops(n: nat)
    requires n > WALK_LIMIT + 2
    ensures Good(Chain(n)) && IsTree(Chain(n))
    ensures var r := Renamed(Chain(n), DirKey(ROOT, "d"), DirKey(n, "d")); r.status == Ok && !IsTree(r.after)
  {
    var s, j, k := Chain(n), DirKey(ROOT, "d"), DirKey(n, "d");
    ChainTree(n);
    ChainWalk(n, n, WALK_LIMIT);
    ChainPath(n, n);
    hide IsTree, Good, Descends, IsPath, MovedNodes;
    var path := seq(n, i requires 0 <= i < n => n - i);
    assert s.dirents[j] == 2 && path[n - 2] == 2 && path[0] == k.parent;
    assert Moves(s, j, k);
    RenameTreeIff(s, j, k);
  }

  // ----- what a rename means for paths

  lemma {:induction false} ResolveConcat(s: Names, x: nat, a: seq<string>, b: seq<string>)
    requires Resolve(s, x, a).status == Ok
    ensures Resolve(s, x, a + b) == Resolve(s, Resolve(s, x, a).inode, b)
    decreases |a|
  {
    if a == [] {
      assert a + b == b;
    } else {
      assert (a + b)[0] == a[0] && (a + b)[1..] == a[1..] + b;
      ResolveConcat(s, s.dirents[DirKey(x, a[0])], a[1..], b);
    }
  }

  /** What lies on a way down is above its end. */
  lemma {:induction false} LeadsAbove(s: Names, x: nat, parts: seq<string>, z: nat)
    requires Good(s) && IsTree(s) && IsDirectory(s.nodes, z) && Resolve(s, x, parts) == Found(Ok, z)
    ensures IsDirectory(s.nodes, x) && Above(s.dirents, x, z)
    decreases |parts|
  {
    if parts == [] {
      assert Rooted(s.dirents, z);
    } else {
      var k := DirKey(x, parts[0]);
      var c := s.dirents[k];
      LeadsAbove(s, c, parts[1..], z);
      var path :| IsPath(s.dirents, path) && path[0] == z && c in path;
      var i :| 0 <= i < |path| && path[i] == c;
      ParentOnPath(s, path, i, k);
    }
  }

  lemma ParentOnPath(s: Names, path: seq<nat>, i: nat, k: DirKey)
    requires Sound(s) && IsPath(s.dirents, path) && i < |path| && k in s.dirents && s.dirents[k] == path[i]
    requires IsDirectory(s.nodes, path[i])
    ensures i + 1 < |path| && path[i + 1] == k.parent
  {
    assert path[i] != ROOT;
    assert IsParent(s.dirents, path[i], path[i + 1]) && IsParent(s.dirents, path[i], k.parent);
    OneParent(s, path[i], k.parent);
  }

  /** No directory is above its own parent. */
  lemma NotItsOwnAncestor(s: Names, k: DirKey)
    requires Good(s) && k in s.dirents && IsDirectory(s.nodes, s.dirents[k])
    ensures !Above(s.dirents, s.dirents[k], k.parent)
  {
    var x := s.dirents[k];
    forall path | IsPath(s.dirents, path) && path[0] == k.parent
      ensures x !in path
    {
      forall i | 0 <= i < |path|
        ensures path[i] != x
      {
        if path[i] == x {
          PathTail(s.dirents, path, i);
          ParentOnPath(s, path, i, k);
          PathTail(s.dirents, path, i + 1);
          PathUnique(s, path, path[i + 1..]);
        }
      }
    }
  }

  /** The way to the new parent is as before. */
  lemma {:induction false} WayToParentSame(s: Names, j: DirKey, k: DirKey, x: nat, parts: seq<string>)
    requires Good(s) && IsTree(s) && Moves(s, j, k) && !LoopsBack(s, j, k)
    requires Resolve(s, x, parts) == Found(Ok, k.parent)
    ensures Resolve(Renamed(s, j, k).after, x, parts) == Found(Ok, k.parent)
    decreases |parts|
  {
    if parts != [] {
      RenamedShape(s, j, k);
      NotAbove(s, j, k);
      var q := DirKey(x, parts[0]);
      var c := s.dirents[q];
      LeadsAbove(s, x, parts, k.parent);
      LeadsAbove(s, c, parts[1..], k.parent);
      NotItsOwnAncestor(s, q);
      assert q != j && q != k;
      SameElsewhere(s, j, k, q);
      StaysDirectory(s, j, k, x);
      if k in s.dirents && IsDirectory(s.nodes, s.dirents[k]) {
        assert q.parent != s.dirents[k];
      }
      WayToParentSame(s, j, k, c, parts[1..]);
    }
  }

  lemma SameElsewhere(s: Names, j: DirKey, k: DirKey, q: DirKey)
    requires Good(s) && Moves(s, j, k) && q != j && q != k
    ensures q in Renamed(s, j, k).after.dirents <==> q in s.dirents
    ensures q in s.dirents ==> Renamed(s, j, k).after.dirents[q] == s.dirents[q]
  {
    hide FileCounts, Descends;
  }

  lemma AboveChild(s: Names, a: nat, k: DirKey)
    requires Sound(s) && k in s.dirents && Above(s.dirents, a, k.parent)
    ensures Above(s.dirents, a, s.dirents[k])
  {
    var path :| IsPath(s.dirents, path) && path[0] == k.parent && a in path;
    var longer := [s.dirents[k]] + path;
    assert IsParent(s.dirents, s.dirents[k], k.parent);
    forall i | 0 <= i < |longer| - 1
      ensures IsParent(s.dirents, longer[i], longer[i + 1])
    {
      assert i > 0 ==> IsParent(s.dirents, path[i - 1], path[i - 1 + 1]);
    }
    assert IsPath(s.dirents, longer) && longer[0] == s.dirents[k] && a in longer;
  }

  /** Everything below the moved directory is as before. */
  lemma {:induction false} SubtreeSame(s: Names, j: DirKey, k: DirKey, x: nat, parts: seq<string>)
    requires Good(s) && Moves(s, j, k) && !LoopsBack(s, j, k) && j in s.dirents && IsDirectory(s.nodes, s.dirents[j])
    requires IsDirectory(s.nodes, x) ==> Above(s.dirents, s.dirents[j], x) && (k in s.dirents ==> x != s.dirents[k])
    ensures Resolve(Renamed(s, j, k).after, x, parts) == Resolve(s, x, parts)
    decreases |parts|
  {
    StaysDirectory(s, j, k, x);
    if parts != [] && IsDirectory(s.nodes, x) {
      NotAbove(s, j, k);
      NotItsOwnAncestor(s, j);
      var q := DirKey(x, parts[0]);
      assert q != j && q != k;
      SameElsewhere(s, j, k, q);
      if ValidName(parts[0]) && q in s.dirents {
        AboveChild(s, s.dirents[j], q);
        SubtreeSame(s, j, k, s.dirents[q], parts[1..]);
      }
    }
  }

  /** After a rename the new path leads, with everything below it, where the old one led. */
  lemma RenameMeaning(s: Names, j: DirKey, k: DirKey, oldWay: seq<string>, newWay: seq<string>, rest: seq<string>)
    requires Good(s) && IsTree(s) && Moves(s, j, k) && !LoopsBack(s, j, k)
    requires Resolve(s, ROOT, oldWay) == Found(Ok, j.parent) && Resolve(s, ROOT, newWay) == Found(Ok, k.parent)
    ensures Resolve(Renamed(s, j, k).after, ROOT, newWay + [k.name] + rest) == Resolve(s, ROOT,
        oldWay + [j.name] + rest)
  {
    var n := Renamed(s, j, k).after;
    RenamedShape(s, j, k);
    WayToParentSame(s, j, k, ROOT, newWay);
    MovedBelow(s, j, k, rest);
    ResolveConcat(s, ROOT, oldWay, [j.name] + rest);
    ResolveConcat(n, ROOT, newWay, [k.name] + rest);
    assert oldWay + [j.name] + rest == oldWay + ([j.name] + rest)
        && newWay + [k.name] + rest == newWay + ([k.name] + rest);
    StaysDirectory(s, j, k, k.parent);
    ResolveStep(s, j, rest);
    ResolveStep(n, k, rest);
  }

  lemma ResolveStep(s: Names, k: DirKey, rest: seq<string>)
    requires IsDirectory(s.nodes, k.parent) && ValidName(k.name) && k in s.dirents
    ensures Resolve(s, k.parent, [k.name] + rest) == Resolve(s, s.dirents[k], rest)
  {
    assert ([k.name] + rest)[1..] == rest;
  }

  lemma MovedBelow(s: Names, j: DirKey, k: DirKey, rest: seq<string>)
    requires Good(s) && IsTree(s) && Moves(s, j, k) && !LoopsBack(s, j, k) && j in s.dirents
    ensures Resolve(Renamed(s, j, k).after, s.dirents[j], rest) == Resolve(s, s.dirents[j], rest)
  {
    var src := s.dirents[j];
    StaysDirectory(s, j, k, src);
    if IsDirectory(s.nodes, src) {
      assert Rooted(s.dirents, src);
      SubtreeSame(s, j, k, src, rest);
    }
  }
}
