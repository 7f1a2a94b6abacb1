/** The directory tree: nodes and directory entries, and the operations on them (store/store.go). */
module Namespaces {
  datatype Kind = Regular | Directory | Symlink

  /** A node's type and link count. */
  datatype Node = Node(kind: Kind, nlink: int)

  datatype DirKey = DirKey(parent: nat, name: string)

  datatype Names = Names(nodes: map<nat, Node>, dirents: map<DirKey, nat>, next: nat)

  datatype Status = Ok | NotExist | Exist | NotDir | IsDir | NotEmpty | Invalid | Perm | Dangling

  datatype Outcome = Outcome(after: Names, status: Status)

  const ROOT: nat := 1
  const WALK_LIMIT: nat := 1000

  /** What Open leaves on an empty database. */
  const EMPTY_NAMES := Names(map[ROOT := Node(Directory, 2)], map[], ROOT + 1)

  predicate ValidName(name: string) {
    name != "" && name != "." && name != ".." && '/' !in name && '\0' !in name
  }

  predicate IsDirectory(nodes: map<nat, Node>, x: nat) { x in nodes && nodes[x].kind == Directory }

  predicate HasChildren(dirents: map<DirKey, nat>, x: nat) { exists k :: k in dirents && k.parent == x }

  // ----- what each operation does, as a function of the state

  function RequireDir(s: Names, x: nat): Status {
    if x !in s.nodes then NotExist else if s.nodes[x].kind != Directory then NotDir else Ok
  }

  /** Whether a new entry may be made at k. */
  function MayAdd(s: Names, k: DirKey): Status {
    if !ValidName(k.name) then Invalid
    else if RequireDir(s, k.parent) != Ok then RequireDir(s, k.parent)
    else if k in s.dirents then Exist else Ok
  }

  function Relink(nodes: map<nat, Node>, x: nat, delta: int): map<nat, Node>
    requires x in nodes
  {
    nodes[x := nodes[x].(nlink := nodes[x].nlink + delta)]
  }

  /** One name of x goes: the node with it, if that was the last. */
  function Release(nodes: map<nat, Node>, x: nat): map<nat, Node>
    requires x in nodes
  {
    if nodes[x].nlink == 1 then nodes - {x} else Relink(nodes, x, -1)
  }

  /** Create and Symlink. */
  function Created(s: Names, k: DirKey, kind: Kind): Outcome {
    if MayAdd(s, k) != Ok then Outcome(s, MayAdd(s, k))
    else Outcome(Names(s.nodes[s.next := Node(kind, 1)], s.dirents[k := s.next], s.next + 1), Ok)
  }

  function DirMade(s: Names, k: DirKey): Outcome {
    if MayAdd(s, k) != Ok then Outcome(s, MayAdd(s, k))
    else Outcome(Names(Relink(s.nodes, k.parent, 1)[s.next := Node(Directory, 2)], s.dirents[k := s.next],
        s.next + 1), Ok)
  }

  function HardLinked(s: Names, target: nat, k: DirKey): Outcome {
    if !ValidName(k.name) then Outcome(s, Invalid)
    else if target !in s.nodes then Outcome(s, NotExist)
    else if s.nodes[target].kind == Directory then Outcome(s, Perm)
    else if MayAdd(s, k) != Ok then Outcome(s, MayAdd(s, k))
    else Outcome(s.(nodes := Relink(s.nodes, target, 1), dirents := s.dirents[k := target]), Ok)
  }

  function Unlinked(s: Names, k: DirKey): Outcome {
    if !ValidName(k.name) then Outcome(s, Invalid)
    else if k !in s.dirents then Outcome(s, NotExist)
    else if s.dirents[k] !in s.nodes then Outcome(s, Dangling)
    else if s.nodes[s.dirents[k]].kind == Directory then Outcome(s, IsDir)
    else Outcome(s.(nodes := Release(s.nodes, s.dirents[k]), dirents := s.dirents - {k}), Ok)
  }

  ghost function DirRemoved(s: Names, k: DirKey): Outcome {
    if !ValidName(k.name) then Outcome(s, Invalid)
    else if k !in s.dirents then Outcome(s, NotExist)
    else if s.dirents[k] !in s.nodes then Outcome(s, Dangling)
    else if s.nodes[s.dirents[k]].kind != Directory then Outcome(s, NotDir)
    else if HasChildren(s.dirents, s.dirents[k]) then Outcome(s, NotEmpty)
    else if k.parent !in s.nodes then Outcome(s, NotExist)
    else Outcome(s.(nodes := Relink(s.nodes - {s.dirents[k]}, k.parent, -1), dirents := s.dirents - {k}), Ok)
  }

  ghost predicate IsParent(dirents: map<DirKey, nat>, x: nat, y: nat) {
    exists k :: k in dirents && k.parent == y && dirents[k] == x
  }

  /** The ancestor walk: root is the parent of one of the first n directories met on the way up from x. */
  ghost predicate Descends(dirents: map<DirKey, nat>, x: nat, root: nat, n: nat)
    decreases n, x
  {
    n > 0 && x != ROOT && exists y :: IsParent(dirents, x, y) && (y == root || Descends(dirents, y, root, n - 1))
  }

  /** Why a rename of src, a node, to k is refused; Ok if it is not. */
  ghost function MayMove(s: Names, src: nat, k: DirKey): Status
    requires src in s.nodes
  {
    var isDir := s.nodes[src].kind == Directory;
    if RequireDir(s, k.parent) != Ok then RequireDir(s, k.parent)
    else if isDir && (k.parent == src || Descends(s.dirents, k.parent, src, WALK_LIMIT)) then Invalid
    else if k !in s.dirents || s.dirents[k] == src then Ok
    else if s.dirents[k] !in s.nodes then Dangling
    else if isDir && s.nodes[s.dirents[k]].kind != Directory then NotDir
    else if !isDir && s.nodes[s.dirents[k]].kind == Directory then IsDir
    else if isDir && HasChildren(s.dirents, s.dirents[k]) then NotEmpty
    else Ok
  }

  /** The nodes after src moves from under oldParent to k. The count of a new parent that loses the replaced directory
      is lost when parents differ: the later write of that node starts again from the stored one. */
  ghost function MovedNodes(s: Names, src: nat, oldParent: nat, k: DirKey): map<nat, Node>
    requires src in s.nodes && oldParent in s.nodes && k.parent in s.nodes
    requires k in s.dirents ==> s.dirents[k] in s.nodes
  {
    var isDir := s.nodes[src].kind == Directory;
    var into := s.nodes[k.parent];
    var replaced :=
      if k !in s.dirents then s.nodes
      else if isDir then (s.nodes - {s.dirents[k]})[k.parent := into.(nlink := into.nlink - 1)]
      else Release(s.nodes, s.dirents[k]);
    if isDir && oldParent != k.parent then
      replaced[oldParent := s.nodes[oldParent].(nlink := s.nodes[oldParent].nlink - 1)]
              [k.parent := s.nodes[k.parent].(nlink := s.nodes[k.parent].nlink + 1)]
    else replaced
  }

  ghost function Renamed(s: Names, j: DirKey, k: DirKey): Outcome {
    if !ValidName(j.name) || !ValidName(k.name) then Outcome(s, Invalid)
    else if j !in s.dirents then Outcome(s, NotExist)
    else
      var src := s.dirents[j];
      if src !in s.nodes then Outcome(s, Dangling)
      else if MayMove(s, src, k) != Ok then Outcome(s, MayMove(s, src, k))
      else if k in s.dirents && s.dirents[k] == src then Outcome(s, Ok)
      else if j.parent !in s.nodes then Outcome(s, NotExist)
      else Outcome(s.(nodes := MovedNodes(s, src, j.parent, k), dirents := (s.dirents - {j})[k := src]), Ok)
  }

  datatype Op =
    | Create(at: DirKey)
    | MakeLink(at: DirKey)
    | Mkdir(at: DirKey)
    | Link(target: nat, at: DirKey)
    | Unlink(at: DirKey)
    | Rmdir(at: DirKey)
    | Rename(from: DirKey, at: DirKey)

  ghost function Apply(s: Names, op: Op): Outcome {
    match op
    case Create(k) => Created(s, k, Regular)
    case MakeLink(k) => Created(s, k, Symlink)
    case Mkdir(k) => DirMade(s, k)
    case Link(x, k) => HardLinked(s, x, k)
    case Unlink(k) => Unlinked(s, k)
    case Rmdir(k) => DirRemoved(s, k)
    case Rename(j, k) => Renamed(s, j, k)
  }

  // ----- what every operation keeps

  ghost function EntriesOf(dirents: map<DirKey, nat>, x: nat): set<DirKey> {
    set k | k in dirents && dirents[k] == x
  }

  /** No entry dangles, entries lie in directories, the root has no entry, a directory at most one, and inodes are not
      reused. */
  ghost predicate Sound(s: Names) {
    && IsDirectory(s.nodes, ROOT)
    && (forall k :: k in s.dirents ==>
          IsDirectory(s.nodes, k.parent) && s.dirents[k] in s.nodes && s.dirents[k] != ROOT)
    && (forall j, k ::
          j in s.dirents && k in s.dirents && s.dirents[j] == s.dirents[k] && IsDirectory(s.nodes, s.dirents[k]) ==>
            j == k)
    && (forall x :: x in s.nodes ==> x < s.next)
  }

  /** A node that is not a directory has as many links as entries that name it, and at least one. */
  ghost predicate FileCounts(s: Names) {
    forall x :: x in s.nodes && s.nodes[x].kind != Directory ==> s.nodes[x].nlink == |EntriesOf(s.dirents, x)| > 0
  }

  ghost predicate Good(s: Names) { Sound(s) && FileCounts(s) }

  /** A directory has one parent. */
  lemma OneParent(s: Names, x: nat, y: nat)
    requires Sound(s) && IsDirectory(s.nodes, x) && IsParent(s.dirents, x, y)
    ensures IsDirectory(s.nodes, y) && forall z :: IsParent(s.dirents, x, z) ==> z == y
  {
    var k :| k in s.dirents && k.parent == y && s.dirents[k] == x;
    forall z | IsParent(s.dirents, x, z)
      ensures z == y
    {
      var j :| j in s.dirents && j.parent == z && s.dirents[j] == x;
      assert j == k;
    }
  }

  // ----- paths of names

  datatype Lookup = Found(status: Status, inode: nat)

  /** What a path leads to from x. */
  function Resolve(s: Names, x: nat, parts: seq<string>): Lookup
    decreases |parts|
  {
    if parts == [] then Found(Ok, x)
    else if !IsDirectory(s.nodes, x) then Found(NotDir, 0)
    else if !ValidName(parts[0]) then Found(Invalid, 0)
    else if DirKey(x, parts[0]) !in s.dirents then Found(NotExist, 0)
    else Resolve(s, s.dirents[DirKey(x, parts[0])], parts[1..])
  }
}
