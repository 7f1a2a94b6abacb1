/** What each namespace operation does, in terms of entries, nodes and links: when it is refused and with which status,
    and what it leaves. */
module NamespaceMeaning {
  import opened Namespaces
  import opened NamespaceCounts
  import opened NamespaceTrees

  /** The entries keys, each in the directory the one before names, lead from x down to z. */
  ghost predicate Leads(d: map<DirKey, nat>, x: nat, keys: seq<DirKey>, z: nat) {
    && (forall i :: 0 <= i < |keys| ==> keys[i] in d)
    && (forall i :: 0 < i < |keys| ==> keys[i].parent == d[keys[i - 1]])
    && if keys == [] then x == z else keys[0].parent == x && d[keys[|keys| - 1]] == z
  }

  /** A refused operation changes nothing. */
  lemma RefusedIsNoOp(s: Names, op: Op)
    ensures Apply(s, op).status != Ok ==> Apply(s, op).after == s
  {
    hide Descends;
  }

  /** A name is refused, before anything else is looked at, if it is empty, a dot or two, or holds a slash or a zero. */
  lemma NameRefused(s: Names, op: Op, name: string)
    requires name == op.at.name || (op.Rename? && name == op.from.name)
    requires name == "" || name == "." || name == ".." || '/' in name || '\0' in name
    ensures Apply(s, op) == Outcome(s, Invalid)
  {
  }

  // ----- making entries

  /** Create and Symlink: one fresh node with one link, one entry for it, and nothing else changes. */
  lemma CreateMeans(s: Names, k: DirKey, op: Op)
    requires Good(s) && (op == Create(k) || op == MakeLink(k))
    ensures var r := Apply(s, op);
            && (r.status == Invalid <==> !ValidName(k.name))
            && (r.status == NotExist <==> ValidName(k.name) && k.parent !in s.nodes)
            && (r.status == NotDir <==>
                ValidName(k.name) && k.parent in s.nodes && s.nodes[k.parent].kind != Directory)
            && (r.status == Exist <==> ValidName(k.name) && k in s.dirents)
            && (r.status == Ok <==>
                ValidName(k.name) && k.parent in s.nodes && s.nodes[k.parent].kind == Directory && k !in s.dirents)
    ensures var r := Apply(s, op);
            r.status == Ok ==>
              && k in r.after.dirents
              && var c := r.after.dirents[k];
                 && c !in s.nodes && (forall j :: j in s.dirents ==> s.dirents[j] != c)
                 && r.after.dirents == s.dirents[k := c]
                 && r.after.nodes == s.nodes[c := Node(if op.Create? then Regular else Symlink, 1)]
  {
    hide FileCounts;
  }

  /** Mkdir: one fresh directory with two links, one entry for it, and one link more for its parent. */
  lemma MkdirMeans(s: Names, k: DirKey)
    requires Good(s)
    ensures var r := Apply(s, Mkdir(k));
            && (r.status == Invalid <==> !ValidName(k.name))
            && (r.status == NotExist <==> ValidName(k.name) && k.parent !in s.nodes)
            && (r.status == NotDir <==>
                ValidName(k.name) && k.parent in s.nodes && s.nodes[k.parent].kind != Directory)
            && (r.status == Exist <==> ValidName(k.name) && k in s.dirents)
            && (r.status == Ok <==>
                ValidName(k.name) && k.parent in s.nodes && s.nodes[k.parent].kind == Directory && k !in s.dirents)
    ensures var r := Apply(s, Mkdir(k));
            r.status == Ok ==>
              && k in r.after.dirents
              && var c := r.after.dirents[k];
                 && c !in s.nodes && (forall j :: j in s.dirents ==> s.dirents[j] != c)
                 && r.after.dirents == s.dirents[k := c]
                 && r.after.nodes.Keys == s.nodes.Keys + {c} && r.after.nodes[c] == Node(Directory, 2)
                 && forall x :: x in s.nodes ==>
                      r.after.nodes[x] == Node(s.nodes[x].kind, s.nodes[x].nlink + if x == k.parent then 1 else 0)
  {
    hide FileCounts;
  }

  /** Link: one more entry and one more link for a node that is not a directory. */
  lemma LinkMeans(s: Names, target: nat, k: DirKey)
    requires Good(s)
    ensures var r := Apply(s, Link(target, k));
            && (r.status == Invalid <==> !ValidName(k.name))
            && (r.status == Perm <==> ValidName(k.name) && IsDirectory(s.nodes, target))
            && (r.status == NotExist <==>
                ValidName(k.name) && !IsDirectory(s.nodes, target) && (target !in s.nodes || k.parent !in s.nodes))
            && (r.status == Ok <==>
                ValidName(k.name) && target in s.nodes && s.nodes[target].kind != Directory && k.parent in s.nodes
                && s.nodes[k.parent].kind == Directory && k !in s.dirents)
    ensures var r := Apply(s, Link(target, k));
            r.status == Ok ==>
              && r.after.dirents == s.dirents[k := target]
              && r.after.nodes.Keys == s.nodes.Keys
              && forall x :: x in s.nodes ==>
                   r.after.nodes[x] == Node(s.nodes[x].kind, s.nodes[x].nlink + if x == target then 1 else 0)
  {
    hide FileCounts;
  }

  // ----- removing entries

  /** Unlink: one entry goes, and one link of the node it named, which goes with its last. */
  lemma UnlinkMeans(s: Names, k: DirKey)
    requires Good(s)
    ensures var r := Apply(s, Unlink(k));
            && (r.status == Invalid <==> !ValidName(k.name))
            && (r.status == NotExist <==> ValidName(k.name) && k !in s.dirents)
            && (r.status == IsDir <==> ValidName(k.name) && k in s.dirents && IsDirectory(s.nodes, s.dirents[k]))
            && (r.status == Ok <==> ValidName(k.name) && k in s.dirents && !IsDirectory(s.nodes, s.dirents[k]))
    ensures var r := Apply(s, Unlink(k));
            r.status == Ok ==>
              && r.after.dirents == s.dirents - {k}
              && var x := s.dirents[k];
                 && r.after.nodes - {x} == s.nodes - {x}
                 && (x in r.after.nodes <==> exists j :: j in s.dirents && s.dirents[j] == x && j != k)
                 && (x in r.after.nodes ==> r.after.nodes[x] == Node(s.nodes[x].kind, s.nodes[x].nlink - 1))
  {
    if Apply(s, Unlink(k)).status == Ok {
      var x := s.dirents[k];
      var e := EntriesOf(s.dirents, x);
      LastEntry(s, k);
      assert k in e && s.nodes[x].nlink == |e|;
      if s.nodes[x].nlink != 1 {
        assert e != {k};
        assert exists j :: j in e && j != k;
      }
    }
  }

  /** Rmdir: an empty directory goes with its entry, and its parent has one link fewer. */
  lemma RmdirMeans(s: Names, k: DirKey)
    requires Good(s)
    ensures var r := Apply(s, Rmdir(k));
            && (r.status == Invalid <==> !ValidName(k.name))
            && (r.status == NotExist <==> ValidName(k.name) && k !in s.dirents)
            && (r.status == NotDir <==> ValidName(k.name) && k in s.dirents && !IsDirectory(s.nodes, s.dirents[k]))
            && (r.status == NotEmpty <==>
                && ValidName(k.name) && k in s.dirents && IsDirectory(s.nodes, s.dirents[k])
                && exists j :: j in s.dirents && j.parent == s.dirents[k])
            && (r.status == Ok <==>
                && ValidName(k.name) && k in s.dirents && IsDirectory(s.nodes, s.dirents[k])
                && forall j :: j in s.dirents ==> j.parent != s.dirents[k])
    ensures var r := Apply(s, Rmdir(k));
            r.status == Ok ==>
              && r.after.dirents == s.dirents - {k}
              && r.after.nodes.Keys == s.nodes.Keys - {s.dirents[k]}
              && forall x :: x in r.after.nodes ==>
                   r.after.nodes[x] == Node(s.nodes[x].kind, s.nodes[x].nlink - if x == k.parent then 1 else 0)
  {
    hide FileCounts;
  }

  // ----- rename

  lemma LeadsStep(d: map<DirKey, nat>, x: nat, keys: seq<DirKey>, k: DirKey)
    requires k in d
    ensures Leads(d, x, keys, k.parent) <==> Leads(d, x, keys + [k], d[k])
  {
    var longer := keys + [k];
    assert forall i :: 0 <= i < |keys| ==> longer[i] == keys[i];
    if Leads(d, x, longer, d[k]) {
      assert longer[|keys|] in d;
      forall i | 0 <= i < |keys|
        ensures keys[i] in d && (i > 0 ==> keys[i].parent == d[keys[i - 1]])
      {
        assert longer[i] in d;
      }
    }
  }

  /** The walk finds exactly what leads down to x over at least one and at most n entries. */
  lemma {:induction false} DescendsIffLeads(s: Names, x: nat, root: nat, n: nat)
    requires Sound(s)
    ensures Descends(s.dirents, x, root, n) <==>
            exists keys: seq<DirKey> :: 0 < |keys| <= n && Leads(s.dirents, root, keys, x)
    decreases n
  {
    if Descends(s.dirents, x, root, n) {
      var way := WayDown(s, x, root, n);
    }
    if keys: seq<DirKey> :| 0 < |keys| <= n && Leads(s.dirents, root, keys, x) {
      FoundByWalk(s, x, root, n, keys);
    }
  }

  lemma {:induction false} WayDown(s: Names, x: nat, root: nat, n: nat) returns (keys: seq<DirKey>)
    requires Sound(s) && Descends(s.dirents, x, root, n)
    ensures 0 < |keys| <= n && Leads(s.dirents, root, keys, x)
    decreases n
  {
    var d := s.dirents;
    var y :| IsParent(d, x, y) && (y == root || Descends(d, y, root, n - 1));
    var k :| k in d && k.parent == y && d[k] == x;
    var way: seq<DirKey> := [];
    assert Leads(d, root, [], root);
    if y != root {
      way := WayDown(s, y, root, n - 1);
    }
    hide Leads, Sound;
    LeadsStep(d, root, way, k);
    keys := way + [k];
  }

  lemma {:induction false} FoundByWalk(s: Names, x: nat, root: nat, n: nat, keys: seq<DirKey>)
    requires Sound(s) && 0 < |keys| <= n && Leads(s.dirents, root, keys, x)
    ensures Descends(s.dirents, x, root, n)
    decreases |keys|
  {
    var d := s.dirents;
    var way, k := keys[..|keys| - 1], keys[|keys| - 1];
    assert way + [k] == keys && k in d && d[k] == x;
    LeadsStep(d, root, way, k);
    assert IsParent(d, x, k.parent);
    assert x != ROOT;
    if way != [] {
      FoundByWalk(s, k.parent, root, n - 1, way);
    }
  }

  /** The moved directory would come to lie in or below itself, as far as a walk of 1000 entries can see. */
  lemma BelowItself(s: Names, src: nat, k: DirKey)
    requires Sound(s)
    ensures k.parent == src || Descends(s.dirents, k.parent, src, WALK_LIMIT) <==>
            exists keys: seq<DirKey> :: |keys| <= 1000 && Leads(s.dirents, src, keys, k.parent)
  {
    DescendsIffLeads(s, k.parent, src, WALK_LIMIT);
    assert Leads(s.dirents, src, [], src);
  }

  /** Rename: when it succeeds, and with which status it is refused. */
  lemma RenameAccepted(s: Names, j: DirKey, k: DirKey)
    requires Good(s)
    ensures var r := Apply(s, Rename(j, k));
            var named := ValidName(j.name) && ValidName(k.name);
            && (r.status == NotExist <==> named && (j !in s.dirents || k.parent !in s.nodes))
            && (r.status == Invalid <==>
                !named || (j in s.dirents && IsDirectory(s.nodes, k.parent) && IsDirectory(s.nodes, s.dirents[j])
                && exists keys: seq<DirKey> :: |keys| <= 1000 && Leads(s.dirents, s.dirents[j], keys, k.parent)))
            && (r.status == Ok <==>
                && named && j in s.dirents && IsDirectory(s.nodes, k.parent)
                && (IsDirectory(s.nodes, s.dirents[j]) ==>
                    !exists keys: seq<DirKey> :: |keys| <= 1000 && Leads(s.dirents, s.dirents[j], keys, k.parent))
                && (k in s.dirents && s.dirents[k] != s.dirents[j] ==>
                    && (IsDirectory(s.nodes, s.dirents[k]) <==> IsDirectory(s.nodes, s.dirents[j]))
                    && (IsDirectory(s.nodes, s.dirents[j]) ==>
                        forall e :: e in s.dirents ==> e.parent != s.dirents[k])))
  {
    hide FileCounts, Descends, Leads;
    if j in s.dirents {
      BelowItself(s, s.dirents[j], k);
    }
  }

  /** Rename: when the new name is in the way. */
  lemma RenameInTheWay(s: Names, j: DirKey, k: DirKey)
    requires Good(s) && ValidName(j.name) && ValidName(k.name) && j in s.dirents && k.parent in s.nodes
    ensures var st := Apply(s, Rename(j, k)).status;
            var isDir := IsDirectory(s.nodes, s.dirents[j]);
            var open := IsDirectory(s.nodes, k.parent) && !(isDir && exists keys: seq<DirKey> ::
                |keys| <= 1000 && Leads(s.dirents, s.dirents[j], keys, k.parent));
            var other := k in s.dirents && s.dirents[k] != s.dirents[j];
            && (st == NotDir <==>
                !IsDirectory(s.nodes, k.parent) || (open && other && isDir && !IsDirectory(s.nodes, s.dirents[k])))
            && (st == IsDir <==> open && other && !isDir && IsDirectory(s.nodes, s.dirents[k]))
            && (st == NotEmpty <==>
                open && other && isDir && IsDirectory(s.nodes, s.dirents[k])
                && exists e :: e in s.dirents && e.parent == s.dirents[k])
  {
    hide FileCounts, Descends, Leads;
    BelowItself(s, s.dirents[j], k);
  }

  /** Between two names of one inode nothing changes; otherwise the entry moves, and replaces the one it finds. */
  lemma RenameMoves(s: Names, j: DirKey, k: DirKey)
    requires Good(s) && Apply(s, Rename(j, k)).status == Ok
    ensures var n := Apply(s, Rename(j, k)).after;
            && j in s.dirents && s.dirents[j] in s.nodes
            && (k in s.dirents && s.dirents[k] == s.dirents[j] ==> n == s)
            && (k !in s.dirents || s.dirents[k] != s.dirents[j] ==>
                n.dirents == (s.dirents - {j})[k := s.dirents[j]] && n.next == s.next)
  {
    hide FileCounts, Descends;
  }

  /** The links after an entry moved: the replaced file has one fewer and goes with its last, a replaced directory goes,
      no other file is touched, and of the directories only the two parents. */
  lemma RenameLinks(s: Names, j: DirKey, k: DirKey, x: nat)
    requires Good(s) && Apply(s, Rename(j, k)).status == Ok && x in s.nodes && j in s.dirents
    requires k !in s.dirents || s.dirents[k] != s.dirents[j]
    ensures var n := Apply(s, Rename(j, k)).after;
            var isDir, onto := IsDirectory(s.nodes, s.dirents[j]), k in s.dirents;
            var replaced := onto && s.dirents[k] == x;
            && (x !in n.nodes <==>
                replaced && (isDir || forall e :: e in s.dirents && s.dirents[e] == x ==> e == k))
            && (x in n.nodes ==> n.nodes[x] == Node(s.nodes[x].kind, s.nodes[x].nlink
                  - (if replaced then 1 else 0)
                  - (if isDir && onto && k.parent == x && j.parent == x then 1 else 0)
                  - (if isDir && j.parent == x && k.parent != x then 1 else 0)
                  + (if isDir && k.parent == x && j.parent != x then 1 else 0)))
  {
    RenamedShape(s, j, k);
    if k in s.dirents && !IsDirectory(s.nodes, s.dirents[k]) {
      LastEntry(s, k);
      if s.nodes[s.dirents[k]].nlink != 1 {
        var e := EntriesOf(s.dirents, s.dirents[k]);
        assert k in e && e != {k};
        assert exists i :: i in e && i != k;
      }
    }
    hide FileCounts, Descends, SameButCounts, Cleared;
  }

  /** A rename makes no node. */
  lemma RenameMakesNone(s: Names, j: DirKey, k: DirKey)
    requires Good(s)
    ensures Apply(s, Rename(j, k)).after.nodes.Keys <= s.nodes.Keys
  {
    hide FileCounts, Descends;
  }

  // ----- paths

  ghost predicate Spells(keys: seq<DirKey>, parts: seq<string>) {
    |keys| == |parts| && forall i :: 0 <= i < |parts| ==> keys[i].name == parts[i] && ValidName(parts[i])
  }

  /** A path of names leads to z exactly if entries of these names do. */
  lemma {:induction false} ResolveIff(s: Names, x: nat, parts: seq<string>, z: nat)
    requires Sound(s)
    ensures Resolve(s, x, parts) == Found(Ok, z) <==>
            exists keys: seq<DirKey> :: Spells(keys, parts) && Leads(s.dirents, x, keys, z)
    decreases |parts|
  {
    if parts == [] {
      assert x == z ==> Leads(s.dirents, x, [], z) && Spells([], parts);
    } else {
      var k := DirKey(x, parts[0]);
      if k in s.dirents {
        ResolveIff(s, s.dirents[k], parts[1..], z);
      }
      hide Leads, Sound;
      if Resolve(s, x, parts) == Found(Ok, z) {
        var way :| Spells(way, parts[1..]) && Leads(s.dirents, s.dirents[k], way, z);
        SpellsCons(k, way, parts);
        LeadsCons(s.dirents, k, way, z);
      }
      if keys: seq<DirKey> :| Spells(keys, parts) && Leads(s.dirents, x, keys, z) {
        var way := keys[1..];
        LeadsFirst(s.dirents, x, keys, z);
        assert keys == [k] + way;
        SpellsCons(k, way, parts);
        LeadsCons(s.dirents, k, way, z);
        LeadsWithin(s, k);
      }
    }
  }

  lemma LeadsWithin(s: Names, k: DirKey)
    requires Sound(s) && k in s.dirents
    ensures IsDirectory(s.nodes, k.parent)
  {
  }

  lemma LeadsFirst(d: map<DirKey, nat>, x: nat, keys: seq<DirKey>, z: nat)
    requires Leads(d, x, keys, z) && keys != []
    ensures keys[0] in d && keys[0].parent == x
  {
  }

  lemma SpellsCons(k: DirKey, way: seq<DirKey>, parts: seq<string>)
    requires parts != [] && k.name == parts[0]
    ensures Spells([k] + way, parts) <==> ValidName(k.name) && Spells(way, parts[1..])
  {
    var keys := [k] + way;
    assert forall i :: 0 <= i < |parts[1..]| ==> parts[1..][i] == parts[i + 1];
    assert forall i :: 0 < i < |keys| ==> keys[i] == way[i - 1];
    if Spells(keys, parts) {
      forall i | 0 <= i < |way|
        ensures way[i].name == parts[1..][i] && ValidName(way[i].name)
      {
        assert keys[i + 1].name == parts[i + 1];
      }
    }
    if ValidName(k.name) && Spells(way, parts[1..]) {
      forall i | 0 < i < |keys|
        ensures keys[i].name == parts[i] && ValidName(parts[i])
      {
        assert way[i - 1].name == parts[1..][i - 1];
      }
    }
  }

  lemma LeadsCons(d: map<DirKey, nat>, k: DirKey, way: seq<DirKey>, z: nat)
    requires k in d
    ensures Leads(d, d[k], way, z) <==> Leads(d, k.parent, [k] + way, z)
  {
    var keys := [k] + way;
    assert forall i :: 0 < i < |keys| ==> keys[i] == way[i - 1];
    if Leads(d, k.parent, keys, z) {
      forall i | 0 <= i < |way|
        ensures way[i] in d
      {
        assert keys[i + 1] in d;
      }
      forall i | 0 < i < |way|
        ensures way[i].parent == d[way[i - 1]]
      {
        assert keys[i + 1].parent == d[keys[i + 1 - 1]];
      }
      if way != [] {
        assert keys[1].parent == d[keys[1 - 1]];
      }
    }
    if Leads(d, d[k], way, z) {
      forall i | 0 < i < |keys|
        ensures keys[i] in d && keys[i].parent == d[keys[i - 1]]
      {
        assert way[i - 1] in d;
      }
    }
  }

  /** A step from y by this name fails with this status. */
  ghost predicate StopsWith(s: Names, y: nat, name: string, status: Status) {
    && (status == NotDir <==> !IsDirectory(s.nodes, y))
    && (status == Invalid <==> IsDirectory(s.nodes, y) && !ValidName(name))
    && (status == NotExist <==> IsDirectory(s.nodes, y) && ValidName(name) && DirKey(y, name) !in s.dirents)
    && (status == NotDir || status == Invalid || status == NotExist)
  }

  /** A lookup that fails does so at the first name that cannot be followed. */
  lemma {:induction false} ResolveStops(s: Names, x: nat, parts: seq<string>)
    ensures Resolve(s, x, parts).status != Ok ==>
              exists i :: 0 <= i < |parts| && Resolve(s, x, parts[..i]).status == Ok
                && StopsWith(s, Resolve(s, x, parts[..i]).inode, parts[i], Resolve(s, x, parts).status)
    decreases |parts|
  {
    var r := Resolve(s, x, parts);
    if r.status != Ok {
      var k := DirKey(x, parts[0]);
      assert parts[..0] == [];
      if IsDirectory(s.nodes, x) && ValidName(k.name) && k in s.dirents {
        ResolveStops(s, s.dirents[k], parts[1..]);
        var i :| 0 <= i < |parts[1..]| && Resolve(s, s.dirents[k], parts[1..][..i]).status == Ok
                 && StopsWith(s, Resolve(s, s.dirents[k], parts[1..][..i]).inode, parts[1..][i], r.status);
        assert parts[..i + 1][0] == parts[0] && parts[..i + 1][1..] == parts[1..][..i];
        assert parts[1..][i] == parts[i + 1];
      } else {
        assert Resolve(s, x, parts[..0]).status == Ok && StopsWith(s, x, parts[0], r.status);
      }
    }
  }

  /** Some path of names leads from the root to z. */
  ghost predicate HasPath(s: Names, z: nat) {
    exists parts :: Resolve(s, ROOT, parts) == Found(Ok, z)
  }

  ghost predicate NamesValid(s: Names) { forall k :: k in s.dirents ==> ValidName(k.name) }

  lemma NamesValidKept(s: Names, op: Op)
    requires Good(s) && NamesValid(s)
    ensures NamesValid(Apply(s, op).after)
  {
    hide FileCounts, Descends;
    if op.Rename? && Apply(s, op).status == Ok {
      RenameMoves(s, op.from, op.at);
    }
  }

  /** In a tree every node has a path from the root. */
  lemma Reachable(s: Names, z: nat)
    requires Good(s) && IsTree(s) && NamesValid(s) && z in s.nodes
    ensures HasPath(s, z)
  {
    if IsDirectory(s.nodes, z) {
      assert Rooted(s.dirents, z);
      var path :| IsPath(s.dirents, path) && path[0] == z;
      DirReachable(s, path);
    } else {
      assert EntriesOf(s.dirents, z) != {};
      var k :| k in EntriesOf(s.dirents, z);
      assert Rooted(s.dirents, k.parent);
      var path :| IsPath(s.dirents, path) && path[0] == k.parent;
      DirReachable(s, path);
      OneFurther(s, k);
    }
  }

  lemma OneFurther(s: Names, k: DirKey)
    requires Sound(s) && k in s.dirents && ValidName(k.name)
    requires HasPath(s, k.parent)
    ensures HasPath(s, s.dirents[k])
  {
    var parts :| Resolve(s, ROOT, parts) == Found(Ok, k.parent);
    ResolveConcat(s, ROOT, parts, [k.name]);
    assert Resolve(s, k.parent, [k.name]) == Found(Ok, s.dirents[k]) by {
      ResolveStep(s, k, []);
      assert [k.name] + [] == [k.name];
    }
    assert Resolve(s, ROOT, parts + [k.name]) == Found(Ok, s.dirents[k]);
  }

  lemma {:induction false} DirReachable(s: Names, path: seq<nat>)
    requires Sound(s) && IsPath(s.dirents, path) && NamesValid(s)
    ensures HasPath(s, path[0])
    decreases |path|
  {
    if |path| == 1 {
      assert Resolve(s, ROOT, []) == Found(Ok, ROOT);
    } else {
      assert IsParent(s.dirents, path[0], path[0 + 1]);
      var k :| k in s.dirents && k.parent == path[1] && s.dirents[k] == path[0];
      PathTail(s.dirents, path, 1);
      DirReachable(s, path[1..]);
      OneFurther(s, k);
    }
  }

  /** On every run without a rename the walk overlooks, every node has a path of names from the root. */
  lemma {:induction false} ReachableOnEveryRun(states: seq<Names>, ops: seq<Op>, k: nat)
    requires NamesRun(states, ops) && k < |states|
    requires forall i :: 0 <= i < k && ops[i].Rename? ==> !LoopsBack(states[i], ops[i].from, ops[i].at)
    ensures forall z :: z in states[k].nodes ==> HasPath(states[k], z)
  {
    TreeOnEveryRun(states, ops, k);
    NamesValidOnEveryRun(states, ops, k);
    forall z | z in states[k].nodes
      ensures HasPath(states[k], z)
    {
      Reachable(states[k], z);
    }
  }

  lemma {:induction false} NamesValidOnEveryRun(states: seq<Names>, ops: seq<Op>, k: nat)
    requires NamesRun(states, ops) && k < |states|
    ensures NamesValid(states[k])
    decreases k
  {
    hide NamesValid, Good, Apply;
    if k == 0 {
      assert NamesValid(EMPTY_NAMES) by { EmptyNamesValid(); }
    } else {
      NamesValidOnEveryRun(states, ops, k - 1);
      LinkCountsOnEveryRun(states, ops, k - 1);
      NamesValidKept(states[k - 1], ops[k - 1]);
      assert states[k - 1 + 1] == Apply(states[k - 1], ops[k - 1]).after;
    }
  }

  lemma EmptyNamesValid()
    ensures NamesValid(EMPTY_NAMES)
  {
  }
}
