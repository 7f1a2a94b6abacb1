/** The namespace operations as the program runs them (store/store.go:313-870). */
module NamespaceCode {
  import opened Bytes
  import opened Namespaces
  import opened NamespaceCounts

  class Store {
    var nodes: map<nat, Node>
    var dirents: map<DirKey, nat>
    var next: nat

    function View(): Names
      reads this
    {
      Names(nodes, dirents, next)
    }

    constructor ()
      ensures View() == EMPTY_NAMES && Good(View())
    {
      nodes, dirents, next := map[ROOT := Node(Directory, 2)], map[], ROOT + 1;
    }

    /** requireDir. */
    method CheckDir(x: nat) returns (st: Status)
      ensures st == RequireDir(View(), x)
    {
      if x !in nodes {
        return NotExist;
      }
      if nodes[x].kind != Directory {
        return NotDir;
      }
      return Ok;
    }

    method CheckNew(k: DirKey) returns (st: Status)
      ensures st == MayAdd(View(), k)
    {
      if !ValidName(k.name) {
        return Invalid;
      }
      st := CheckDir(k.parent);
      if st == Ok && k in dirents {
        return Exist;
      }
    }

    method Create(k: DirKey, kind: Kind) returns (st: Status)
      requires Good(View()) && kind != Directory
      modifies this
      ensures Good(View()) && Outcome(View(), st) == Created(old(View()), k, kind)
    {
      hide Good, FileCounts;
      GoodIsSound(View());
      GoodKept(View(), if kind == Regular then Op.Create(k) else Op.MakeLink(k));
      st := CheckNew(k);
      if st == Ok {
        nodes, dirents, next := nodes[next := Node(kind, 1)], dirents[k := next], next + 1;
      }
    }

    method Mkdir(k: DirKey) returns (st: Status)
      requires Good(View())
      modifies this
      ensures Good(View()) && Outcome(View(), st) == DirMade(old(View()), k)
    {
      hide Good, FileCounts;
      GoodIsSound(View());
      GoodKept(View(), Op.Mkdir(k));
      st := CheckNew(k);
      if st == Ok {
        var parent := nodes[k.parent];
        var batch := nodes[next := Node(Directory, 2)];
        batch := batch[k.parent := parent.(nlink := parent.nlink + 1)];
        assert batch == DirMade(View(), k).after.nodes;
        nodes, dirents, next := batch, dirents[k := next], next + 1;
      }
    }

    method Link(target: nat, k: DirKey) returns (st: Status)
      requires Good(View())
      modifies this
      ensures Good(View()) && Outcome(View(), st) == HardLinked(old(View()), target, k)
    {
      hide Good, FileCounts;
      GoodIsSound(View());
      GoodKept(View(), Op.Link(target, k));
      if !ValidName(k.name) {
        return Invalid;
      }
      if target !in nodes {
        return NotExist;
      }
      var n := nodes[target];
      if n.kind == Directory {
        return Perm;
      }
      st := CheckNew(k);
      if st == Ok {
        nodes, dirents := nodes[target := n.(nlink := n.nlink + 1)], dirents[k := target];
      }
    }

    method Unlink(k: DirKey) returns (st: Status)
      requires Good(View())
      modifies this
      ensures Good(View()) && Outcome(View(), st) == Unlinked(old(View()), k)
    {
      hide Good, FileCounts;
      GoodIsSound(View());
      GoodKept(View(), Op.Unlink(k));
      if !ValidName(k.name) {
        return Invalid;
      }
      if k !in dirents {
        return NotExist;
      }
      var child := dirents[k];
      if child !in nodes {
        return Dangling;
      }
      var n := nodes[child];
      if n.kind == Directory {
        return IsDir;
      }
      n := n.(nlink := n.nlink - 1);
      if n.nlink == 0 {
        nodes := nodes - {child};
      } else {
        nodes := nodes[child := n];
      }
      dirents := dirents - {k};
      return Ok;
    }

    /** hasDirentChildren. */
    method FindChild(x: nat) returns (found: bool)
      ensures found == HasChildren(dirents, x)
    {
      var left := dirents.Keys;
      while left != {}
        invariant left <= dirents.Keys && forall k :: k in dirents && k !in left ==> k.parent != x
      {
        var k :| k in left;
        if k.parent == x {
          return true;
        }
        left := left - {k};
      }
      return false;
    }

    method Rmdir(k: DirKey) returns (st: Status)
      requires Good(View())
      modifies this
      ensures Good(View()) && Outcome(View(), st) == DirRemoved(old(View()), k)
    {
      hide Good, FileCounts;
      GoodIsSound(View());
      GoodKept(View(), Op.Rmdir(k));
      if !ValidName(k.name) {
        return Invalid;
      }
      if k !in dirents {
        return NotExist;
      }
      var child := dirents[k];
      if nodes[child].kind != Directory {
        return NotDir;
      }
      var full := FindChild(child);
      if full {
        return NotEmpty;
      }
      var parent := nodes[k.parent];
      parent := parent.(nlink := parent.nlink - 1);
      nodes := (nodes - {child})[k.parent := parent];
      dirents := dirents - {k};
      return Ok;
    }

    /** findParent: the parent of some entry that names x. */
    method FindParent(x: nat) returns (p: Option<nat>)
      ensures p.Some? ==> IsParent(dirents, x, p.value)
      ensures p.None? ==> forall y :: !IsParent(dirents, x, y)
    {
      var left := dirents.Keys;
      while left != {}
        invariant left <= dirents.Keys && forall k :: k in dirents && k !in left ==> dirents[k] != x
      {
        var k :| k in left;
        if dirents[k] == x {
          return Some(k.parent);
        }
        left := left - {k};
      }
      return None;
    }

    /** isDescendant. */
    method IsDescendant(candidate: nat, root: nat) returns (yes: bool)
      requires Good(View()) && IsDirectory(nodes, candidate)
      ensures yes == Descends(dirents, candidate, root, WALK_LIMIT)
    {
      hide FileCounts;
      var cur, i: nat := candidate, 0;
      while i < WALK_LIMIT && cur != ROOT
        invariant i <= WALK_LIMIT && IsDirectory(nodes, cur)
        invariant Descends(dirents, candidate, root, WALK_LIMIT) == Descends(dirents, cur, root, WALK_LIMIT - i)
      {
        var parent := FindParent(cur);
        if parent.None? {
          return false;
        }
        OneParent(View(), cur, parent.value);
        if parent.value == root {
          return true;
        }
        cur, i := parent.value, i + 1;
      }
      return false;
    }

    method Rename(j: DirKey, k: DirKey) returns (st: Status)
      requires Good(View())
      modifies this
      ensures Good(View()) && Outcome(View(), st) == Renamed(old(View()), j, k)
    {
      hide Good, FileCounts;
      GoodIsSound(View());
      GoodKept(View(), Op.Rename(j, k));
      if !ValidName(j.name) || !ValidName(k.name) {
        return Invalid;
      }
      if j !in dirents {
        return NotExist;
      }
      var src := dirents[j];
      st := CheckMove(src, k);
      if st != Ok || (k in dirents && dirents[k] == src) {
        return;
      }
      var isDir := nodes[src].kind == Directory;
      var batch := nodes;
      if k in dirents {
        if isDir {
          batch := batch - {dirents[k]};
          batch := batch[k.parent := nodes[k.parent].(nlink := nodes[k.parent].nlink - 1)];
        } else {
          var dst := nodes[dirents[k]];
          dst := dst.(nlink := dst.nlink - 1);
          batch := if dst.nlink == 0 then batch - {dirents[k]} else batch[dirents[k] := dst];
        }
      }
      if isDir && j.parent != k.parent {
        batch := batch[j.parent := nodes[j.parent].(nlink := nodes[j.parent].nlink - 1)];
        batch := batch[k.parent := nodes[k.parent].(nlink := nodes[k.parent].nlink + 1)];
      }
      nodes, dirents := batch, (dirents - {j})[k := src];
    }

    /** Rename's checks once the source is known. */
    method CheckMove(src: nat, k: DirKey) returns (st: Status)
      requires Good(View()) && src in nodes
      ensures st == MayMove(View(), src, k)
    {
      hide FileCounts;
      st := CheckDir(k.parent);
      if st != Ok {
        return;
      }
      var isDir := nodes[src].kind == Directory;
      if isDir {
        if k.parent == src {
          return Invalid;
        }
        var below := IsDescendant(k.parent, src);
        if below {
          return Invalid;
        }
      }
      if k !in dirents || dirents[k] == src {
        return Ok;
      }
      var dst := dirents[k];
      if isDir != (nodes[dst].kind == Directory) {
        return if isDir then NotDir else IsDir;
      }
      if isDir {
        var full := FindChild(dst);
        if full {
          return NotEmpty;
        }
      }
      return Ok;
    }

    /** LookupPath, on a split path. */
    method LookupPath(parts: seq<string>) returns (r: Lookup)
      requires Good(View())
      ensures r == Resolve(View(), ROOT, parts)
    {
      hide FileCounts;
      var inode := ROOT;
      for i := 0 to |parts|
        invariant inode in nodes
        invariant Resolve(View(), ROOT, parts) == Resolve(View(), inode, parts[i..])
      {
        assert parts[i..][0] == parts[i] && parts[i..][1..] == parts[i + 1..];
        if nodes[inode].kind != Directory {
          return Found(NotDir, 0);
        }
        var k := DirKey(inode, parts[i]);
        if !ValidName(parts[i]) {
          return Found(Invalid, 0);
        }
        if k !in dirents {
          return Found(NotExist, 0);
        }
        inode := dirents[k];
      }
      return Found(Ok, inode);
    }
  }
}
