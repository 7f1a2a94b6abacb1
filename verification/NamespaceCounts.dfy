/** No operation leaves a dangling entry, and link counts match the entries. */
module NamespaceCounts {
  import opened Namespaces

  // ----- counting entries

  lemma EntriesAdd(d: map<DirKey, nat>, k: DirKey, c: nat, x: nat)
    requires k !in d
    ensures |EntriesOf(d[k := c], x)| == |EntriesOf(d, x)| + if c == x then 1 else 0
  {
    assert EntriesOf(d[k := c], x) == EntriesOf(d, x) + if c == x then {k} else {};
  }

  lemma EntriesDrop(d: map<DirKey, nat>, k: DirKey, x: nat)
    requires k in d
    ensures |EntriesOf(d - {k}, x)| == |EntriesOf(d, x)| - if d[k] == x then 1 else 0
  {
    EntriesAdd(d - {k}, k, d[k], x);
    assert (d - {k})[k := d[k]] == d;
  }

  /** The entries of directory x that name a directory. */
  ghost function SubdirsOf(s: Names, x: nat): set<DirKey> {
    set k | k in s.dirents && k.parent == x && IsDirectory(s.nodes, s.dirents[k])
  }

  /** x's count is 2 plus its subdirectories, plus extra. */
  ghost predicate DirCount(s: Names, x: nat, extra: int) {
    x in s.nodes && s.nodes[x].nlink == 2 + |SubdirsOf(s, x)| + extra
  }

  /** n differs from s by one entry k more for the child, and says the same of which children are directories. */
  lemma SubdirsAdd(s: Names, n: Names, k: DirKey, x: nat)
    requires k !in s.dirents && k in n.dirents && n.dirents == s.dirents[k := n.dirents[k]]
    requires forall j :: j in s.dirents ==> (IsDirectory(n.nodes, s.dirents[j]) <==> IsDirectory(s.nodes, s.dirents[j]))
    ensures |SubdirsOf(n, x)| == |SubdirsOf(s, x)| + if k.parent == x
        && IsDirectory(n.nodes, n.dirents[k]) then 1 else 0
  {
    var here := k.parent == x && IsDirectory(n.nodes, n.dirents[k]);
    var before, after := SubdirsOf(s, x), SubdirsOf(n, x);
    assert k !in before && before <= after && forall j :: j in after ==> j in before || j == k;
    if here {
      assert after == before + {k};
    } else {
      assert after == before;
    }
  }

  lemma SubdirsDrop(s: Names, n: Names, k: DirKey, x: nat)
    requires k in s.dirents && n.dirents == s.dirents - {k}
    requires forall j :: j in n.dirents ==> (IsDirectory(n.nodes, s.dirents[j]) <==> IsDirectory(s.nodes, s.dirents[j]))
    ensures |SubdirsOf(n, x)| == |SubdirsOf(s, x)| - if k.parent == x
        && IsDirectory(s.nodes, s.dirents[k]) then 1 else 0
  {
    assert SubdirsOf(n, x) == SubdirsOf(s, x) - if k.parent == x && IsDirectory(s.nodes, s.dirents[k]) then {k} else {};
  }

  lemma GoodIsSound(s: Names)
    requires Good(s)
    ensures Sound(s)
  {
  }

  // ----- entries added and removed

  /** A fresh node and its one entry. */
  lemma FreshGood(s: Names, nodes: map<nat, Node>, k: DirKey, node: Node)
    requires Good(s) && SameButCounts(s.nodes, nodes) && k !in s.dirents && IsDirectory(s.nodes, k.parent)
    requires node.kind != Directory ==> node.nlink == 1
    ensures Good(Names(nodes[s.next := node], s.dirents[k := s.next], s.next + 1))
  {
    FreshSound(s, nodes, k, node);
    hide EntriesOf, Sound;
    var n := Names(nodes[s.next := node], s.dirents[k := s.next], s.next + 1);
    NoEntries(s);
    forall x | x in n.nodes && n.nodes[x].kind != Directory
      ensures n.nodes[x].nlink == |EntriesOf(n.dirents, x)| > 0
    {
      EntriesAdd(s.dirents, k, s.next, x);
    }
  }

  lemma FreshSound(s: Names, nodes: map<nat, Node>, k: DirKey, node: Node)
    requires Sound(s) && SameButCounts(s.nodes, nodes) && k !in s.dirents && IsDirectory(s.nodes, k.parent)
    ensures Sound(Names(nodes[s.next := node], s.dirents[k := s.next], s.next + 1))
  {
    NoEntries(s);
    hide EntriesOf;
    var n := Names(nodes[s.next := node], s.dirents[k := s.next], s.next + 1);
    assert forall x :: x in s.nodes ==> (IsDirectory(n.nodes, x) <==> IsDirectory(s.nodes, x));
  }

  lemma CreatedGood(s: Names, k: DirKey, kind: Kind)
    requires Good(s) && kind != Directory
    ensures Good(Created(s, k, kind).after)
  {
    hide Good;
    if MayAdd(s, k) == Ok {
      FreshGood(s, s.nodes, k, Node(kind, 1));
    }
  }

  /** The next inode is named nowhere. */
  lemma NoEntries(s: Names)
    requires Sound(s)
    ensures |EntriesOf(s.dirents, s.next)| == 0
    ensures forall k :: k in s.dirents ==> s.dirents[k] != s.next && k.parent != s.next
  {
    assert EntriesOf(s.dirents, s.next) == {};
  }

  lemma DirMadeGood(s: Names, k: DirKey)
    requires Good(s)
    ensures Good(DirMade(s, k).after)
  {
    hide Good;
    if MayAdd(s, k) == Ok {
      FreshGood(s, Relink(s.nodes, k.parent, 1), k, Node(Directory, 2));
    }
  }

  lemma HardLinkedGood(s: Names, target: nat, k: DirKey)
    requires Good(s)
    ensures Good(HardLinked(s, target, k).after)
  {
    hide EntriesOf;
    var n := HardLinked(s, target, k).after;
    if HardLinked(s, target, k).status == Ok {
      TargetNotRoot(s, target);
      forall x | x in n.nodes && n.nodes[x].kind != Directory
        ensures n.nodes[x].nlink == |EntriesOf(n.dirents, x)| > 0
      {
        EntriesAdd(s.dirents, k, target, x);
      }
    }
  }

  lemma TargetNotRoot(s: Names, x: nat)
    requires Sound(s) && x in s.nodes && s.nodes[x].kind != Directory
    ensures x != ROOT
  {
  }

  /** A count of one means one entry. */
  lemma LastEntry(s: Names, k: DirKey)
    requires Good(s) && k in s.dirents && !IsDirectory(s.nodes, s.dirents[k])
    ensures s.nodes[s.dirents[k]].nlink == 1 ==> forall j :: j in s.dirents && s.dirents[j] == s.dirents[k] ==> j == k
  {
    var e := EntriesOf(s.dirents, s.dirents[k]);
    assert k in e;
    if s.nodes[s.dirents[k]].nlink == 1 {
      forall j | j in s.dirents && s.dirents[j] == s.dirents[k]
        ensures j == k
      {
        OneElement(e, j, k);
      }
    }
  }

  lemma OneElement<T>(e: set<T>, j: T, k: T)
    requires |e| == 1 && j in e && k in e
    ensures j == k
  {
    assert |e - {j}| == 0;
    assert k !in e - {j};
  }

  /** Taking one entry of a file away, and its node with the last one, keeps everything in order. */
  lemma ReleasedGood(s: Names, k: DirKey)
    requires Good(s) && k in s.dirents && !IsDirectory(s.nodes, s.dirents[k])
    ensures Good(s.(nodes := Release(s.nodes, s.dirents[k]), dirents := s.dirents - {k}))
  {
    hide EntriesOf;
    var n := s.(nodes := Release(s.nodes, s.dirents[k]), dirents := s.dirents - {k});
    LastEntry(s, k);
    forall x | x in n.nodes && n.nodes[x].kind != Directory
      ensures n.nodes[x].nlink == |EntriesOf(n.dirents, x)| > 0
    {
      EntriesDrop(s.dirents, k, x);
    }
  }

  // ----- rename in three moves: the replaced entry goes, the old entry goes, the new one comes

  /** The state once what k names has made way. */
  ghost function Cleared(s: Names, k: DirKey): Names
    requires Sound(s)
  {
    if k !in s.dirents then s
    else if IsDirectory(s.nodes, s.dirents[k]) then s.(nodes := s.nodes - {s.dirents[k]}, dirents := s.dirents - {k})
    else s.(nodes := Release(s.nodes, s.dirents[k]), dirents := s.dirents - {k})
  }

  lemma ClearedGood(s: Names, k: DirKey)
    requires Good(s)
    requires k in s.dirents && IsDirectory(s.nodes, s.dirents[k]) ==> !HasChildren(s.dirents, s.dirents[k])
    ensures Good(Cleared(s, k))
  {
    hide EntriesOf;
    if k in s.dirents {
      if IsDirectory(s.nodes, s.dirents[k]) {
        forall x | x in s.nodes && s.nodes[x].kind != Directory
          ensures s.nodes[x].nlink == |EntriesOf(s.dirents - {k}, x)| > 0
        {
          EntriesDrop(s.dirents, k, x);
        }
      } else {
        ReleasedGood(s, k);
      }
    }
  }

  lemma DirRemovedGood(s: Names, k: DirKey)
    requires Good(s)
    ensures Good(DirRemoved(s, k).after)
  {
    var r := DirRemoved(s, k);
    if r.status == Ok {
      DirRemovedShape(s, k);
      ClearedGood(s, k);
      hide Good, Cleared, DirRemoved, SameButCounts;
      CountsGood(Cleared(s, k), r.after.nodes);
    }
  }

  lemma DirRemovedShape(s: Names, k: DirKey)
    requires Sound(s) && DirRemoved(s, k).status == Ok
    ensures k in s.dirents && IsDirectory(s.nodes, s.dirents[k]) && !HasChildren(s.dirents, s.dirents[k])
    ensures var n := DirRemoved(s, k).after;
            n == Cleared(s, k).(nodes := n.nodes) && SameButCounts(Cleared(s, k).nodes, n.nodes)
  {
  }

  /** Moving one entry keeps everything in order. */
  lemma MovedGood(s: Names, j: DirKey, k: DirKey)
    requires Good(s) && j in s.dirents && k !in s.dirents && IsDirectory(s.nodes, k.parent)
    ensures Good(s.(dirents := (s.dirents - {j})[k := s.dirents[j]]))
  {
    hide EntriesOf;
    var src := s.dirents[j];
    forall x | x in s.nodes && s.nodes[x].kind != Directory
      ensures s.nodes[x].nlink == |EntriesOf((s.dirents - {j})[k := src], x)| > 0
    {
      EntriesDrop(s.dirents, j, x);
      EntriesAdd(s.dirents - {j}, k, src, x);
    }
  }

  /** Nodes that differ in directories' counts only. */
  ghost predicate SameButCounts(a: map<nat, Node>, b: map<nat, Node>) {
    a.Keys == b.Keys && forall x :: x in a ==> a[x].kind == b[x].kind && (a[x].kind != Directory ==> a[x] == b[x])
  }

  lemma CountsGood(s: Names, nodes: map<nat, Node>)
    requires Good(s) && SameButCounts(s.nodes, nodes)
    ensures Good(s.(nodes := nodes))
  {
  }

  /** A rename that goes through. */
  ghost predicate Moves(s: Names, j: DirKey, k: DirKey) {
    Renamed(s, j, k).status == Ok && !(k in s.dirents && s.dirents[k] == s.dirents[j])
  }

  lemma RenamedShape(s: Names, j: DirKey, k: DirKey)
    requires Good(s) && Moves(s, j, k)
    ensures j in s.dirents && IsDirectory(s.nodes, k.parent) && j in Cleared(s, k).dirents
    ensures k !in Cleared(s, k).dirents
    ensures k in s.dirents && IsDirectory(s.nodes, s.dirents[k]) ==> !HasChildren(s.dirents, s.dirents[k])
    ensures k in s.dirents ==> (IsDirectory(s.nodes, s.dirents[k]) <==> IsDirectory(s.nodes, s.dirents[j]))
    ensures IsDirectory(Cleared(s, k).nodes, k.parent)
    ensures var n := Renamed(s, j, k).after;
            n.dirents == (Cleared(s, k).dirents - {j})[k := s.dirents[j]]
                && SameButCounts(Cleared(s, k).nodes, n.nodes) && n.next == s.next
  {
    hide FileCounts, Descends;
    var c, n := Cleared(s, k), Renamed(s, j, k).after;
    assert j in s.dirents && j != k;
    if k in s.dirents && IsDirectory(s.nodes, s.dirents[k]) {
      assert j.parent != s.dirents[k] && k.parent != s.dirents[k];
    }
    assert n.dirents == (c.dirents - {j})[k := s.dirents[j]];
  }

  lemma RenamedGood(s: Names, j: DirKey, k: DirKey)
    requires Good(s)
    ensures Good(Renamed(s, j, k).after)
  {
    if Moves(s, j, k) {
      hide Good, Cleared, SameButCounts;
      RenamedShape(s, j, k);
      ClearedGood(s, k);
      var c := Cleared(s, k);
      ClearedDirents(s, k);
      MovedGood(c, j, k);
      CountsGood(c.(dirents := (c.dirents - {j})[k := s.dirents[j]]), Renamed(s, j, k).after.nodes);
      ClearedNext(s, k);
      assert Renamed(s, j, k).after == c.(dirents := (c.dirents - {j})[k := s.dirents[j]], nodes := Renamed(s, j,
          k).after.nodes);
    }
  }

  lemma ClearedDirents(s: Names, k: DirKey)
    requires Sound(s)
    ensures forall j :: j in Cleared(s, k).dirents ==> j in s.dirents && Cleared(s, k).dirents[j] == s.dirents[j]
  {
  }

  lemma ClearedNext(s: Names, k: DirKey)
    requires Sound(s)
    ensures Cleared(s, k).next == s.next
  {
  }

  /** Every operation, whatever it returns, keeps entries and file link counts in order. */
  lemma GoodKept(s: Names, op: Op)
    requires Good(s)
    ensures Good(Apply(s, op).after)
  {
    match op
    case Create(k) => CreatedGood(s, k, Regular);
    case MakeLink(k) => CreatedGood(s, k, Symlink);
    case Mkdir(k) => DirMadeGood(s, k);
    case Link(x, k) => HardLinkedGood(s, x, k);
    case Unlink(k) =>
      if Unlinked(s, k).status == Ok {
        ReleasedGood(s, k);
      }
    case Rmdir(k) => DirRemovedGood(s, k);
    case Rename(j, k) => RenamedGood(s, j, k);
  }

  // ----- directories' link counts

  /** A directory replaces a directory under another parent, x. */
  ghost predicate Overcounts(s: Names, op: Op, x: nat) {
    op.Rename? && Moves(s, op.from, op.at) && op.from in s.dirents && IsDirectory(s.nodes, s.dirents[op.from])
    && op.at in s.dirents && op.from.parent != op.at.parent && op.at.parent == x
  }

  lemma AddCount(s: Names, op: Op, x: nat, extra: int)
    requires Good(s) && DirCount(s, x, extra) && IsDirectory(s.nodes, x)
    requires (op.Create? || op.MakeLink? || op.Mkdir? || op.Link?)
    ensures DirCount(Apply(s, op).after, x, extra)
  {
    hide SubdirsOf, FileCounts;
    var n := Apply(s, op).after;
    if Apply(s, op).status == Ok {
      NoEntries(s);
      SubdirsAdd(s, n, op.at, x);
    }
  }

  lemma DropCount(s: Names, op: Op, x: nat, extra: int)
    requires Good(s) && DirCount(s, x, extra) && IsDirectory(s.nodes, x) && (op.Unlink? || op.Rmdir?)
    requires x in Apply(s, op).after.nodes
    ensures DirCount(Apply(s, op).after, x, extra)
  {
    hide SubdirsOf, FileCounts;
    var n := Apply(s, op).after;
    if Apply(s, op).status == Ok {
      SubdirsDrop(s, n, op.at, x);
    }
  }

  lemma ClearedSubdirs(s: Names, k: DirKey, x: nat)
    requires Good(s)
    ensures |SubdirsOf(Cleared(s, k), x)|
            == |SubdirsOf(s, x)| - if k in s.dirents && k.parent == x
                && IsDirectory(s.nodes, s.dirents[k]) then 1 else 0
  {
    hide SubdirsOf, FileCounts;
    if k in s.dirents {
      SubdirsDrop(s, Cleared(s, k), k, x);
    }
  }

  lemma RenamedSubdirs(s: Names, j: DirKey, k: DirKey, x: nat)
    requires Good(s) && Moves(s, j, k)
    ensures j in s.dirents
    ensures var isDir := IsDirectory(s.nodes, s.dirents[j]);
            |SubdirsOf(Renamed(s, j, k).after, x)| == |SubdirsOf(s, x)|
              - (if isDir && k in s.dirents && k.parent == x then 1 else 0)
              - (if isDir && j.parent == x then 1 else 0) + (if isDir && k.parent == x then 1 else 0)
  {
    RenamedShape(s, j, k);
    ClearedSubdirs(s, k, x);
    ClearedDirents(s, k);
    ClearedKinds(s, k, s.dirents[j]);
    hide SubdirsOf, Good, Cleared, Renamed;
    var c, n := Cleared(s, k), Renamed(s, j, k).after;
    var c1 := c.(dirents := c.dirents - {j});
    SubdirsDrop(c, c1, j, x);
    SubdirsAdd(c1, n, k, x);
  }

  lemma ClearedKinds(s: Names, k: DirKey, y: nat)
    requires Good(s) && (k in s.dirents ==> s.dirents[k] != y)
    ensures IsDirectory(Cleared(s, k).nodes, y) <==> IsDirectory(s.nodes, y)
  {
  }

  lemma RenameCount(s: Names, j: DirKey, k: DirKey, x: nat, extra: int)
    requires Good(s) && DirCount(s, x, extra) && IsDirectory(s.nodes, x) && x in Renamed(s, j, k).after.nodes
    ensures DirCount(Renamed(s, j, k).after, x, extra + if Overcounts(s, Rename(j, k), x) then 1 else 0)
  {
    if Moves(s, j, k) {
      RenamedSubdirs(s, j, k, x);
      RenamedNlink(s, j, k, x);
      hide SubdirsOf, Good, Renamed;
    }
  }

  /** How a rename changes a directory's count. */
  lemma RenamedNlink(s: Names, j: DirKey, k: DirKey, x: nat)
    requires Good(s) && Moves(s, j, k) && IsDirectory(s.nodes, x) && x in Renamed(s, j, k).after.nodes
    ensures j in s.dirents
    ensures var isDir := IsDirectory(s.nodes, s.dirents[j]);
            Renamed(s, j, k).after.nodes[x].nlink == s.nodes[x].nlink
              - (if isDir && k in s.dirents && k.parent == x && j.parent == k.parent then 1 else 0)
              - (if isDir && j.parent == x && j.parent != k.parent then 1 else 0)
              + (if isDir && k.parent == x && j.parent != k.parent then 1 else 0)
  {
    RenamedShape(s, j, k);
    hide FileCounts, Descends, SameButCounts, Cleared;
  }

  /** Every operation keeps a directory's count at 2 plus its subdirectories, except that a directory replacing a
      directory under another parent leaves that parent one too high. */
  lemma DirCountKept(s: Names, op: Op, x: nat, extra: int)
    requires Good(s) && DirCount(s, x, extra) && IsDirectory(s.nodes, x) && x in Apply(s, op).after.nodes
    ensures DirCount(Apply(s, op).after, x, extra + if Overcounts(s, op, x) then 1 else 0)
  {
    hide DirCount, Good;
    if op.Rename? {
      RenameCount(s, op.from, op.at, x, extra);
    } else if op.Unlink? || op.Rmdir? {
      DropCount(s, op, x, extra);
    } else {
      AddCount(s, op, x, extra);
    }
  }

  /** A directory that appears is empty and counts right. */
  lemma NewDirCount(s: Names, op: Op, x: nat)
    requires Good(s) && x !in s.nodes && IsDirectory(Apply(s, op).after.nodes, x)
    ensures x == s.next && DirCount(Apply(s, op).after, x, 0)
  {
    if op.Rename? {
      if Moves(s, op.from, op.at) {
        RenamedShape(s, op.from, op.at);
      }
    } else {
      hide FileCounts;
      NoEntries(s);
      var n := Apply(s, op).after;
      assert op.Mkdir?;
      assert SubdirsOf(n, x) == {};
    }
  }

  // ----- runs

  ghost predicate NamesRun(states: seq<Names>, ops: seq<Op>) {
    && |states| == |ops| + 1 && states[0] == EMPTY_NAMES
    && forall i :: 0 <= i < |ops| ==> states[i + 1] == Apply(states[i], ops[i]).after
  }

  /** How often, in the first k operations, a directory replaced a directory under x, coming from another parent. */
  ghost function Overcount(states: seq<Names>, ops: seq<Op>, k: nat, x: nat): nat
    requires k <= |ops| < |states|
  {
    if k == 0 then 0
    else Overcount(states, ops, k - 1, x) + if Overcounts(states[k - 1], ops[k - 1], x) then 1 else 0
  }

  /** On every run: no entry dangles, the root has no entry, no directory has two, every file has as many links as
      entries and at least one, and every directory's count is 2 plus its subdirectories plus the overcounting renames
      into it. */
  lemma {:induction false} LinkCountsOnEveryRun(states: seq<Names>, ops: seq<Op>, k: nat)
    requires NamesRun(states, ops) && k < |states|
    ensures Good(states[k])
    ensures forall x :: IsDirectory(states[k].nodes, x) ==> DirCount(states[k], x, Overcount(states, ops, k, x))
    ensures forall x: nat :: x >= states[k].next ==> Overcount(states, ops, k, x) == 0
    decreases k
  {
    hide DirCount, Good, Apply, Overcounts;
    if k == 0 {
      EmptyCounts();
    } else {
      LinkCountsOnEveryRun(states, ops, k - 1);
      var s, op := states[k - 1], ops[k - 1];
      assert states[k] == Apply(s, op).after by { assert states[k - 1 + 1] == Apply(s, op).after; }
      GoodKept(s, op);
      forall x | IsDirectory(states[k].nodes, x)
        ensures DirCount(states[k], x, Overcount(states, ops, k, x))
      {
        OvercountsOld(s, op, x);
        KindKept(s, op, x);
        if x in s.nodes {
          DirCountKept(s, op, x, Overcount(states, ops, k - 1, x));
        } else {
          NewDirCount(s, op, x);
        }
      }
      forall x: nat | x >= states[k].next
        ensures Overcount(states, ops, k, x) == 0
      {
        OvercountsOld(s, op, x);
        NextGrows(s, op);
      }
    }
  }

  lemma EmptyCounts()
    ensures Good(EMPTY_NAMES) && forall x :: IsDirectory(EMPTY_NAMES.nodes, x) ==> DirCount(EMPTY_NAMES, x, 0)
  {
    assert SubdirsOf(EMPTY_NAMES, ROOT) == {};
  }

  lemma OvercountsOld(s: Names, op: Op, x: nat)
    requires Good(s)
    ensures Overcounts(s, op, x) ==> x < s.next && x in s.nodes
  {
  }

  lemma KindKept(s: Names, op: Op, x: nat)
    requires Good(s)
    ensures x in s.nodes && x in Apply(s, op).after.nodes ==> Apply(s, op).after.nodes[x].kind == s.nodes[x].kind
  {
    hide FileCounts, Descends;
  }

  lemma NextGrows(s: Names, op: Op)
    ensures s.next <= Apply(s, op).after.next
  {
  }

  /** A file's node goes exactly when the last entry that names it does. */
  lemma FreedExactly(s: Names, op: Op, x: nat)
    requires Good(s) && x in s.nodes && s.nodes[x].kind != Directory
    ensures x in Apply(s, op).after.nodes <==> EntriesOf(Apply(s, op).after.dirents, x) != {}
  {
    hide Apply;
    GoodKept(s, op);
    KindKept(s, op, x);
    var n := Apply(s, op).after;
    if x in n.nodes {
      assert |EntriesOf(n.dirents, x)| > 0;
    }
  }

  lemma {:induction false} OvercountZero(states: seq<Names>, ops: seq<Op>, k: nat, x: nat)
    requires k <= |ops| < |states|
    ensures Overcount(states, ops, k, x) == 0 <==> forall i :: 0 <= i < k ==> !Overcounts(states[i], ops[i], x)
  {
    hide Overcounts;
    if k > 0 {
      OvercountZero(states, ops, k - 1, x);
    }
  }

  /** A directory's count is right exactly until a directory from elsewhere replaces one of its subdirectories. */
  lemma DirCountRightIff(states: seq<Names>, ops: seq<Op>, k: nat, x: nat)
    requires NamesRun(states, ops) && k < |states| && IsDirectory(states[k].nodes, x)
    ensures states[k].nodes[x].nlink == 2 + |SubdirsOf(states[k], x)| <==>
            forall i :: 0 <= i < k ==> !Overcounts(states[i], ops[i], x)
  {
    hide Overcounts, Overcount, Good, Apply;
    LinkCountsOnEveryRun(states, ops, k);
    OvercountZero(states, ops, k, x);
  }

  /** /a/x and /b/y, all directories. */
  const TWO_BY_TWO := Names(
    map[1 := Node(Directory, 4), 2 := Node(Directory, 3), 3 := Node(Directory, 3), 4 := Node(Directory, 2),
        5 := Node(Directory, 2)],
    map[DirKey(1, "a") := 2, DirKey(1, "b") := 3, DirKey(2, "x") := 4, DirKey(3, "y") := 5], 6)

  lemma TwoByTwoGood()
    ensures Good(TWO_BY_TWO) && DirCount(TWO_BY_TWO, 3, 0)
  {
    assert SubdirsOf(TWO_BY_TWO, 3) == {DirKey(3, "y")};
  }

  lemma TwoByTwoParents()
    ensures (forall z :: IsParent(TWO_BY_TWO.dirents, 3, z) ==> z == 1) && !HasChildren(TWO_BY_TWO.dirents, 5)
  {
  }

  lemma TwoByTwoMoves()
    ensures Overcounts(TWO_BY_TWO, Rename(DirKey(2, "x"), DirKey(3, "y")), 3)
  {
    TwoByTwoParents();
    hide HasChildren, IsParent;
    assert !Descends(TWO_BY_TWO.dirents, 3, 4, WALK_LIMIT) by {
      assert !Descends(TWO_BY_TWO.dirents, 1, 4, WALK_LIMIT - 1);
    }
  }

  /** rename(/a/x, /b/y) onto an empty directory: afterwards /b counts two subdirectories and has one. */
  lemma OvercountExample()
    ensures Good(TWO_BY_TWO) && DirCount(TWO_BY_TWO, 3, 0)
    ensures DirCount(Renamed(TWO_BY_TWO, DirKey(2, "x"), DirKey(3, "y")).after, 3, 1)
  {
    TwoByTwoGood();
    TwoByTwoMoves();
    hide Good, DirCount;
    RenamedShape(TWO_BY_TWO, DirKey(2, "x"), DirKey(3, "y"));
    RenameCount(TWO_BY_TWO, DirKey(2, "x"), DirKey(3, "y"), 3, 0);
  }
}
