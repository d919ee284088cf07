/**
 The tree of directory entries and the path cache beside it (os/src/fs/dentry.rs,
 os/src/fs/ext4/ext4_dentry.rs, os/src/fs/simplefs/simple_dentry.rs).
 A dentry is a number; `nodes` holds the ones that hang in the tree.
 */
module Dentries {

  import opened Options
  import Paths

  /** A path, as its components. */
  type Names = seq<string>

  datatype Node = Node(name: string, path: Names, parent: Option<nat>, children: map<string, nat>, inode: nat)

  datatype Tree = Tree(nodes: map<nat, Node>, cache: map<Names, nat>)

  const ROOT: nat := 0

  /** The name by which the tree leads to a dentry; what it stores as its own name may differ. */
  function Key(n: Node): string {
    if n.path == [] then "" else n.path[|n.path| - 1]
  }

  // ----- the operations -------------------------------------------------------------

  /**
   A new dentry under `dir`: what `create`, `link` and a `look_up` that reads the disk do.
   The name it stores is trimmed, the one it hangs by is not. A dentry that was there
   under this name is no longer part of the tree.
   */
  function Add(s: Tree, dir: nat, name: string, id: nat, inode: nat): Tree
    requires dir in s.nodes
  {
    var n := s.nodes[dir];
    var path := n.path + [name];
    var replaced := if name in n.children then {n.children[name]} else {};
    Tree((s.nodes - replaced)[dir := n.(children := n.children[name := id])]
           [id := Node(Paths.FormatPath(name), path, Some(dir), map[], inode)],
         s.cache[path := id])
  }

  /** By the name the dentry stores; it is out of the tree if that is the one it hangs by. */
  function Unlink(s: Tree, dir: nat, child: nat): Tree
    requires dir in s.nodes && child in s.nodes
  {
    var c := s.nodes[child];
    var nodes := s.nodes[dir := s.nodes[dir].(children := s.nodes[dir].children - {c.name})];
    Tree(if c.name == Key(c) then nodes - {child} else nodes[child := c.(parent := None)],
         s.cache - {c.path})
  }

  /** The dentry moves; what hangs below it and their paths are not looked at. */
  function Rename(s: Tree, dir: nat, name: string, newDir: nat, newName: string): Tree
    requires dir in s.nodes && newDir in s.nodes && name in s.nodes[dir].children
    requires s.nodes[dir].children[name] in s.nodes
  {
    var child := s.nodes[dir].children[name];
    var oldPath, newPath := s.nodes[dir].path + [name], s.nodes[newDir].path + [newName];
    var d := s.nodes[dir].(children := s.nodes[dir].children - {name});
    var c := s.nodes[child].(name := newName, path := newPath, parent := Some(newDir));
    var e := s.nodes[newDir].(children := s.nodes[newDir].children[newName := child]);
    Tree(s.nodes[dir := d][newDir := e][child := c], (s.cache - {oldPath})[newPath := child])
  }

  // ----- the tree and its index -----------------------------------------------------

  /** The dentry reached from the root by component names. */
  ghost function Walk(s: Tree, ns: seq<string>): Option<nat> {
    if ns == [] then Some(ROOT)
    else Down(s, Walk(s, ns[..|ns| - 1]), ns[|ns| - 1])
  }

  ghost function Down(s: Tree, at: Option<nat>, name: string): Option<nat> {
    if at.Some? && at.value in s.nodes && name in s.nodes[at.value].children
    then Some(s.nodes[at.value].children[name])
    else None
  }

  /** The cache holds the path of every dentry the tree leads to, and nothing else. */
  ghost predicate Index(s: Tree) {
    forall ns :: Walk(s, ns) == Cached(s, ns)
  }

  ghost function Cached(s: Tree, ns: Names): Option<nat> {
    if ns in s.cache then Some(s.cache[ns]) else None
  }

  ghost predicate ChildOk(s: Tree, id: nat, name: string)
    requires id in s.nodes && name in s.nodes[id].children
  {
    var child := s.nodes[id].children[name];
    && child in s.nodes && child != ROOT && s.nodes[child].parent == Some(id)
    && s.nodes[child].path == s.nodes[id].path + [name]
  }

  ghost predicate ParentOk(s: Tree, id: nat)
    requires id in s.nodes
  {
    var n := s.nodes[id];
    if id == ROOT then n.path == []
    else
      && n.parent.Some? && n.parent.value in s.nodes
      && Key(n) in s.nodes[n.parent.value].children && s.nodes[n.parent.value].children[Key(n)] == id
  }

  ghost predicate NodeOk(s: Tree, id: nat)
    requires id in s.nodes
  {
    && s.nodes[id].path in s.cache && s.cache[s.nodes[id].path] == id
    && ParentOk(s, id)
    && forall name {:trigger ChildOk(s, id, name)} :: name in s.nodes[id].children ==> ChildOk(s, id, name)
  }

  ghost predicate Inv(s: Tree) {
    && ROOT in s.nodes
    && (forall id {:trigger NodeOk(s, id)} :: id in s.nodes ==> NodeOk(s, id))
    && (forall p :: p in s.cache ==> s.cache[p] in s.nodes && s.nodes[s.cache[p]].path == p)
  }

  lemma ChildOf(s: Tree, id: nat, name: string)
    requires Inv(s) && id in s.nodes && name in s.nodes[id].children
    ensures ChildOk(s, id, name)
  {
    NodeAt(s, id);
  }

  lemma NodeAt(s: Tree, id: nat)
    requires Inv(s) && id in s.nodes
    ensures NodeOk(s, id)
  {
  }

  lemma DownLeads(s: Tree, at: nat, ns: Names, name: string)
    requires Inv(s) && at in s.nodes && s.nodes[at].path == ns && Down(s, Some(at), name).Some?
    ensures var child := Down(s, Some(at), name).value; child in s.nodes && s.nodes[child].path == ns + [name]
  {
    ChildOf(s, at, name);
  }

  lemma {:induction false} WalkLeads(s: Tree, ns: Names)
    requires Inv(s) && Walk(s, ns).Some?
    ensures Walk(s, ns).value in s.nodes && s.nodes[Walk(s, ns).value].path == ns
    decreases |ns|
  {
    if ns == [] {
      NodeAt(s, ROOT);
    } else {
      var init, last := ns[..|ns| - 1], ns[|ns| - 1];
      assert ns == init + [last];
      WalkLeads(s, init);
      DownLeads(s, Walk(s, init).value, init, last);
    }
  }

  /** The path of a dentry other than the root, from its parent's. */
  lemma PathBelow(s: Tree, id: nat)
    requires Inv(s) && id in s.nodes && id != ROOT
    ensures s.nodes[id].parent.Some? && s.nodes[id].parent.value in s.nodes
    ensures s.nodes[id].path == s.nodes[s.nodes[id].parent.value].path + [Key(s.nodes[id])]
  {
    NodeAt(s, id);
    ChildOf(s, s.nodes[id].parent.value, Key(s.nodes[id]));
  }

  lemma {:induction false} WalkReaches(s: Tree, id: nat)
    requires Inv(s) && id in s.nodes
    ensures Walk(s, s.nodes[id].path) == Some(id)
    decreases |s.nodes[id].path|
  {
    NodeAt(s, id);
    if id != ROOT {
      PathBelow(s, id);
      var p, ns := s.nodes[id].parent.value, s.nodes[id].path;
      WalkReaches(s, p);
      assert ns[..|ns| - 1] == s.nodes[p].path && ns[|ns| - 1] == Key(s.nodes[id]);
    }
  }

  lemma InvIndex(s: Tree)
    requires Inv(s)
    ensures Index(s)
  {
    forall ns ensures Walk(s, ns) == Cached(s, ns) {
      if Walk(s, ns).Some? {
        WalkLeads(s, ns);
        NodeAt(s, Walk(s, ns).value);
      } else if ns in s.cache {
        WalkReaches(s, s.cache[ns]);
        assert false;
      }
    }
  }

  // ----- what each operation keeps --------------------------------------------------

  /** Whatever has the path of a name in `dir` is the child of `dir` by that name. */
  lemma HolderIsChild(s: Tree, dir: nat, name: string, x: nat)
    requires Inv(s) && dir in s.nodes && x in s.nodes && s.nodes[x].path == s.nodes[dir].path + [name]
    ensures name in s.nodes[dir].children && s.nodes[dir].children[name] == x
  {
    NodeAt(s, dir);
    NodeAt(s, x);
    PathBelow(s, x);
    var p, q := s.nodes[x].path, s.nodes[x].parent.value;
    NodeAt(s, q);
    assert s.nodes[q].path == p[..|p| - 1] == s.nodes[dir].path && Key(s.nodes[x]) == p[|p| - 1] == name;
  }

  /** A name not in use in a directory makes a path not in use anywhere. */
  lemma FreshPath(s: Tree, dir: nat, name: string)
    requires Inv(s) && dir in s.nodes && name !in s.nodes[dir].children
    ensures s.nodes[dir].path + [name] !in s.cache
  {
    if s.nodes[dir].path + [name] in s.cache {
      HolderIsChild(s, dir, name, s.cache[s.nodes[dir].path + [name]]);
      assert false;
    }
  }

  /** No two places in the tree hold the same dentry. */
  lemma OnePlace(s: Tree, dir: nat, name: string, k: nat, n: string)
    requires Inv(s) && dir in s.nodes && name in s.nodes[dir].children && k in s.nodes && n in s.nodes[k].children
    requires s.nodes[dir].children[name] == s.nodes[k].children[n]
    ensures k == dir && n == name
  {
    ChildOf(s, dir, name);
    ChildOf(s, k, n);
    assert (s.nodes[dir].path + [name])[|s.nodes[dir].path|] == name;
  }

  /** Takes a leaf out of the tree and the cache by the name it hangs by. */
  ghost function Drop(s: Tree, dir: nat, name: string): Tree
    requires dir in s.nodes && name in s.nodes[dir].children
  {
    var d := s.nodes[dir].(children := s.nodes[dir].children - {name});
    Tree(s.nodes[dir := d] - {s.nodes[dir].children[name]}, s.cache - {s.nodes[dir].path + [name]})
  }

  ghost predicate IsLeaf(s: Tree, id: nat) {
    id in s.nodes && s.nodes[id].children == map[]
  }

  lemma DropParent(s: Tree, dir: nat, name: string, k: nat)
    requires dir in s.nodes && name in s.nodes[dir].children && IsLeaf(s, s.nodes[dir].children[name])
    requires k in s.nodes && k != s.nodes[dir].children[name] && ParentOk(s, k)
    ensures k in Drop(s, dir, name).nodes && ParentOk(Drop(s, dir, name), k)
  {
  }

  lemma DropChild(s: Tree, dir: nat, name: string, k: nat, n: string)
    requires dir in s.nodes && name in s.nodes[dir].children && IsLeaf(s, s.nodes[dir].children[name])
    requires k in s.nodes && k != s.nodes[dir].children[name] && n in s.nodes[k].children && ChildOk(s, k, n)
    requires s.nodes[k].children[n] != s.nodes[dir].children[name]
    ensures var t := Drop(s, dir, name);
      k in t.nodes && (n in t.nodes[k].children ==> ChildOk(t, k, n))
  {
  }

  lemma DropNode(s: Tree, dir: nat, name: string, k: nat)
    requires Inv(s) && dir in s.nodes && name in s.nodes[dir].children && IsLeaf(s, s.nodes[dir].children[name])
    requires k in s.nodes && k != s.nodes[dir].children[name]
    ensures k in Drop(s, dir, name).nodes && NodeOk(Drop(s, dir, name), k)
  {
    var t, child := Drop(s, dir, name), s.nodes[dir].children[name];
    NodeAt(s, k);
    NodeAt(s, child);
    ChildOf(s, dir, name);
    DropParent(s, dir, name, k);
    forall n | n in t.nodes[k].children ensures ChildOk(t, k, n) {
      ChildOf(s, k, n);
      if s.nodes[k].children[n] == child {
        OnePlace(s, dir, name, k, n);
        assert false;
      }
      DropChild(s, dir, name, k, n);
    }
  }

  lemma DropKeeps(s: Tree, dir: nat, name: string)
    requires Inv(s) && dir in s.nodes && name in s.nodes[dir].children && IsLeaf(s, s.nodes[dir].children[name])
    ensures Inv(Drop(s, dir, name)) && dir in Drop(s, dir, name).nodes
    ensures name !in Drop(s, dir, name).nodes[dir].children
  {
    var t, child := Drop(s, dir, name), s.nodes[dir].children[name];
    ChildOf(s, dir, name);
    NodeAt(s, child);
    forall k | k in t.nodes ensures NodeOk(t, k) {
      DropNode(s, dir, name, k);
    }
  }

  lemma AddParent(s: Tree, dir: nat, name: string, id: nat, inode: nat, k: nat)
    requires dir in s.nodes && name !in s.nodes[dir].children && id !in s.nodes && k in s.nodes && ParentOk(s, k)
    ensures ParentOk(Add(s, dir, name, id, inode), k)
  {
  }

  lemma AddChild(s: Tree, dir: nat, name: string, id: nat, inode: nat, k: nat, n: string)
    requires dir in s.nodes && name !in s.nodes[dir].children && id !in s.nodes && k in s.nodes
    requires n in s.nodes[k].children && ChildOk(s, k, n)
    ensures n in Add(s, dir, name, id, inode).nodes[k].children && ChildOk(Add(s, dir, name, id, inode), k, n)
  {
  }

  lemma AddNode(s: Tree, dir: nat, name: string, id: nat, inode: nat, k: nat)
    requires dir in s.nodes && name !in s.nodes[dir].children && id !in s.nodes && id != ROOT
    requires s.nodes[dir].path + [name] !in s.cache && k in s.nodes && NodeOk(s, k)
    ensures NodeOk(Add(s, dir, name, id, inode), k)
  {
    var t := Add(s, dir, name, id, inode);
    AddParent(s, dir, name, id, inode, k);
    forall n | n in t.nodes[k].children ensures ChildOk(t, k, n) {
      if n in s.nodes[k].children {
        AddChild(s, dir, name, id, inode, k, n);
      }
    }
  }

  lemma AddFresh(s: Tree, dir: nat, name: string, id: nat, inode: nat)
    requires Inv(s) && dir in s.nodes && name !in s.nodes[dir].children && id !in s.nodes
    ensures Inv(Add(s, dir, name, id, inode))
  {
    var t := Add(s, dir, name, id, inode);
    FreshPath(s, dir, name);
    forall k | k in t.nodes ensures NodeOk(t, k) {
      if k != id {
        AddNode(s, dir, name, id, inode, k);
      }
    }
  }

  /** The name is free in the directory, or what has it can be replaced. */
  ghost predicate CanAdd(s: Tree, dir: nat, name: string) {
    dir in s.nodes && (name in s.nodes[dir].children ==> IsLeaf(s, s.nodes[dir].children[name]))
  }

  /** Replacing a leaf is dropping it first. */
  lemma AddSplits(s: Tree, dir: nat, name: string, id: nat, inode: nat)
    requires dir in s.nodes && name in s.nodes[dir].children && s.nodes[dir].children[name] != dir && id !in s.nodes
    ensures dir in Drop(s, dir, name).nodes
    ensures Add(s, dir, name, id, inode) == Add(Drop(s, dir, name), dir, name, id, inode)
  {
    var t, u := Add(s, dir, name, id, inode), Add(Drop(s, dir, name), dir, name, id, inode);
    assert t.nodes[dir].children == u.nodes[dir].children;
    assert t.nodes == u.nodes;
    assert t.cache == u.cache;
  }

  lemma AddKeeps(s: Tree, dir: nat, name: string, id: nat, inode: nat)
    requires Inv(s) && CanAdd(s, dir, name) && id !in s.nodes
    ensures Inv(Add(s, dir, name, id, inode))
  {
    if name in s.nodes[dir].children {
      var child := s.nodes[dir].children[name];
      ChildOf(s, dir, name);
      DropKeeps(s, dir, name);
      AddSplits(s, dir, name, id, inode);
      AddFresh(Drop(s, dir, name), dir, name, id, inode);
    } else {
      AddFresh(s, dir, name, id, inode);
    }
  }

  /** What `unlink` can take out without harm: a leaf that stores the name it hangs by. */
  ghost predicate CanUnlink(s: Tree, child: nat) {
    IsLeaf(s, child) && s.nodes[child].name == Key(s.nodes[child])
  }

  lemma UnlinkKeeps(s: Tree, dir: nat, child: nat)
    requires Inv(s) && dir in s.nodes && child in s.nodes && s.nodes[child].parent == Some(dir) && child != ROOT
    requires CanUnlink(s, child)
    ensures Inv(Unlink(s, dir, child)) && child !in Unlink(s, dir, child).nodes
  {
    var key := Key(s.nodes[child]);
    NodeAt(s, child);
    PathBelow(s, child);
    DropKeeps(s, dir, key);
    assert s.nodes[dir].children[key] == child && s.nodes[child].path == s.nodes[dir].path + [key];
    var t, u := Unlink(s, dir, child), Drop(s, dir, key);
    assert t.cache == u.cache;
    assert t.nodes == u.nodes;
  }

  /**
   The locks of both directories are held at once, and the moved dentry's is taken
   beside the new directory's, so the three are different; and the name has to be free:
   replacing a file or an empty directory takes the new directory's lock again.
   */
  ghost predicate CanRename(s: Tree, dir: nat, name: string, newDir: nat, newName: string) {
    && dir in s.nodes && newDir in s.nodes && dir != newDir
    && name in s.nodes[dir].children
    && s.nodes[dir].children[name] in s.nodes && s.nodes[dir].children[name] != newDir
    && newName !in s.nodes[newDir].children
  }

  /** A directory with something in it is not replaced; its lock, too, is taken beside the two. */
  ghost predicate RefusesRename(s: Tree, dir: nat, newDir: nat, newName: string, isDir: bool) {
    && dir in s.nodes && newDir in s.nodes && dir != newDir && newName in s.nodes[newDir].children
    && var there := s.nodes[newDir].children[newName];
      there in s.nodes && there != dir && there != newDir && isDir && s.nodes[there].children != map[]
  }

  /** The tree without the names that dentries store, which nothing but `unlink` looks at. */
  ghost predicate SameButNames(s: Tree, t: Tree) {
    && s.cache == t.cache
    && (forall id :: id in s.nodes <==> id in t.nodes)
    && forall id :: id in s.nodes ==> s.nodes[id] == t.nodes[id].(name := s.nodes[id].name)
  }

  lemma NamesDoNotMatter(s: Tree, t: Tree)
    requires Inv(s) && SameButNames(s, t)
    ensures Inv(t)
  {
    forall id | id in t.nodes ensures NodeOk(t, id) {
      NodeAt(s, id);
      forall name | name in t.nodes[id].children ensures ChildOk(t, id, name) {
        ChildOf(s, id, name);
      }
    }
  }

  /** Moving a dentry with nothing below it is taking it out and putting it back elsewhere. */
  lemma RenameSplits(s: Tree, dir: nat, name: string, newDir: nat, newName: string)
    requires CanRename(s, dir, name, newDir, newName) && s.nodes[dir].children[name] != dir
    requires IsLeaf(s, s.nodes[dir].children[name])
    ensures newDir in Drop(s, dir, name).nodes
    ensures var child := s.nodes[dir].children[name];
      SameButNames(Add(Drop(s, dir, name), newDir, newName, child, s.nodes[child].inode),
                   Rename(s, dir, name, newDir, newName))
  {
  }

  lemma RenameKeeps(s: Tree, dir: nat, name: string, newDir: nat, newName: string)
    requires Inv(s) && CanRename(s, dir, name, newDir, newName) && IsLeaf(s, s.nodes[dir].children[name])
    ensures Inv(Rename(s, dir, name, newDir, newName))
  {
    var child := s.nodes[dir].children[name];
    ChildOf(s, dir, name);
    RenameSplits(s, dir, name, newDir, newName);
    DropKeeps(s, dir, name);
    var u := Drop(s, dir, name);
    AddFresh(u, newDir, newName, child, s.nodes[child].inode);
    NamesDoNotMatter(Add(u, newDir, newName, child, s.nodes[child].inode), Rename(s, dir, name, newDir, newName));
  }

  // ----- when an operation leaves the cache exact -----------------------------------

  /** The edges of every dentry nearer to the root than `dir` are still there. */
  ghost predicate AboveKept(s: Tree, t: Tree, dir: nat)
    requires dir in s.nodes
  {
    forall id :: id in s.nodes && |s.nodes[id].path| < |s.nodes[dir].path| ==>
      && id in t.nodes
      && forall n :: n in s.nodes[id].children ==>
           n in t.nodes[id].children && t.nodes[id].children[n] == s.nodes[id].children[n]
  }

  /** So the way to `dir` has not changed. */
  lemma {:induction false} WayKept(s: Tree, t: Tree, dir: nat, ns: Names)
    requires Inv(s) && dir in s.nodes && AboveKept(s, t, dir) && ns <= s.nodes[dir].path && Walk(s, ns).Some?
    ensures Walk(t, ns) == Walk(s, ns)
    decreases |ns|
  {
    if ns != [] {
      var init := ns[..|ns| - 1];
      WayKept(s, t, dir, init);
      WalkLeads(s, init);
    }
  }

  /** What a changed tree finds at a name in `dir`. */
  lemma DirStep(s: Tree, t: Tree, dir: nat, name: string)
    requires Inv(s) && dir in s.nodes && AboveKept(s, t, dir)
    ensures Walk(t, s.nodes[dir].path + [name]) == Down(t, Some(dir), name)
  {
    WalkReaches(s, dir);
    WayKept(s, t, dir, s.nodes[dir].path);
    assert (s.nodes[dir].path + [name])[..|s.nodes[dir].path|] == s.nodes[dir].path;
  }

  /** A path left in the cache below a dentry that is no longer at its place. */
  lemma Stale(s: Tree, t: Tree, child: nat, n: string)
    requires Inv(s) && child in s.nodes && n in s.nodes[child].children
    requires Down(t, Walk(t, s.nodes[child].path), n).None?
    requires forall p :: p in s.cache && p != s.nodes[child].path ==> p in t.cache
    ensures !Index(t)
  {
    var p := s.nodes[child].path + [n];
    ChildOf(s, child, n);
    NodeAt(s, s.nodes[child].children[n]);
    assert p[..|p| - 1] == s.nodes[child].path;
    assert Walk(t, p) != Cached(t, p);
  }

  /**
   Taking a dentry out leaves the cache exact if and only if nothing hangs below it and the
   name it stores is the one it hangs by.
   */
  lemma UnlinkIndex(s: Tree, dir: nat, child: nat)
    requires Inv(s) && dir in s.nodes && child in s.nodes && s.nodes[child].parent == Some(dir) && child != ROOT
    ensures Index(Unlink(s, dir, child)) <==> CanUnlink(s, child)
  {
    var t, key := Unlink(s, dir, child), Key(s.nodes[child]);
    NodeAt(s, child);
    PathBelow(s, child);
    if CanUnlink(s, child) {
      UnlinkKeeps(s, dir, child);
      InvIndex(t);
    } else {
      assert AboveKept(s, t, dir);
      DirStep(s, t, dir, key);
      if s.nodes[child].name == key {
        var n :| n in s.nodes[child].children;
        Stale(s, t, child, n);
      } else {
        assert Walk(t, s.nodes[child].path) != Cached(t, s.nodes[child].path);
      }
    }
  }

  /** A new dentry leaves the cache exact if and only if it replaces nothing, or something with nothing below it. */
  lemma AddIndex(s: Tree, dir: nat, name: string, id: nat, inode: nat)
    requires Inv(s) && dir in s.nodes && id !in s.nodes
    ensures Index(Add(s, dir, name, id, inode)) <==> CanAdd(s, dir, name)
  {
    var t := Add(s, dir, name, id, inode);
    if name in s.nodes[dir].children {
      ChildOf(s, dir, name);
    }
    if CanAdd(s, dir, name) {
      AddKeeps(s, dir, name, id, inode);
      InvIndex(t);
    } else {
      var child := s.nodes[dir].children[name];
      var n :| n in s.nodes[child].children;
      assert AboveKept(s, t, dir);
      DirStep(s, t, dir, name);
      Stale(s, t, child, n);
    }
  }

  /** Moving a dentry leaves the cache exact if and only if nothing hangs below it. */
  lemma RenameIndex(s: Tree, dir: nat, name: string, newDir: nat, newName: string)
    requires Inv(s) && CanRename(s, dir, name, newDir, newName)
    ensures Index(Rename(s, dir, name, newDir, newName)) <==> IsLeaf(s, s.nodes[dir].children[name])
  {
    var t, child := Rename(s, dir, name, newDir, newName), s.nodes[dir].children[name];
    ChildOf(s, dir, name);
    if IsLeaf(s, child) {
      RenameKeeps(s, dir, name, newDir, newName);
      InvIndex(t);
    } else {
      var n :| n in s.nodes[child].children;
      assert AboveKept(s, t, dir);
      DirStep(s, t, dir, name);
      Stale(s, t, child, n);
    }
  }

  // ----- runs -----------------------------------------------------------------------

  datatype Step =
    | Create(dir: nat, name: string, id: nat, inode: nat)
    | Link(target: nat, dir: nat, name: string, id: nat)
    | LookUp(dir: nat, name: string, id: nat, inode: nat)
    | Remove(dir: nat, child: nat)
    | Move(dir: nat, name: string, newDir: nat, newName: string)

  ghost predicate Enabled(s: Tree, step: Step) {
    match step
    case Create(dir, name, id, _) => CanAdd(s, dir, name) && id !in s.nodes
    case Link(target, dir, name, id) => target in s.nodes && CanAdd(s, dir, name) && id !in s.nodes
    case LookUp(dir, name, id, _) => dir in s.nodes && id !in s.nodes
    case Remove(dir, child) =>
      dir in s.nodes && child in s.nodes && child != ROOT && s.nodes[child].parent == Some(dir) && CanUnlink(s, child)
    case Move(dir, name, newDir, newName) =>
      CanRename(s, dir, name, newDir, newName) && IsLeaf(s, s.nodes[dir].children[name])
  }

  ghost function Apply(s: Tree, step: Step): Tree
    requires Enabled(s, step)
  {
    match step
    case Create(dir, name, id, inode) => Add(s, dir, name, id, inode)
    case Link(target, dir, name, id) => Add(s, dir, name, id, s.nodes[target].inode)
    case LookUp(dir, name, id, inode) => if name in s.nodes[dir].children then s else Add(s, dir, name, id, inode)
    case Remove(dir, child) => Unlink(s, dir, child)
    case Move(dir, name, newDir, newName) => Rename(s, dir, name, newDir, newName)
  }

  ghost predicate IsRun(s: Tree, steps: seq<Step>, t: Tree)
    decreases |steps|
  {
    if steps == [] then s == t
    else Enabled(s, steps[0]) && IsRun(Apply(s, steps[0]), steps[1..], t)
  }

  lemma StepKeeps(s: Tree, step: Step)
    requires Inv(s) && Enabled(s, step)
    ensures Inv(Apply(s, step))
  {
    match step
    case Create(dir, name, id, inode) => AddKeeps(s, dir, name, id, inode);
    case Link(target, dir, name, id) => AddKeeps(s, dir, name, id, s.nodes[target].inode);
    case LookUp(dir, name, id, inode) =>
      if name !in s.nodes[dir].children {
        AddKeeps(s, dir, name, id, inode);
      }
    case Remove(dir, child) => UnlinkKeeps(s, dir, child);
    case Move(dir, name, newDir, newName) => RenameKeeps(s, dir, name, newDir, newName);
  }

  /** After any run the cache is the path index of the tree. */
  lemma {:induction false} EveryRun(s: Tree, steps: seq<Step>, t: Tree)
    requires Inv(s) && IsRun(s, steps, t)
    ensures Inv(t) && Index(t)
    decreases |steps|
  {
    if steps == [] {
      InvIndex(t);
    } else {
      StepKeeps(s, steps[0]);
      EveryRun(Apply(s, steps[0]), steps[1..], t);
    }
  }

  // ----- the name space -------------------------------------------------------------

  /** What a path leads to. */
  datatype File = File(id: nat, inode: nat)

  ghost function Look(s: Tree, ns: Names): Option<File> {
    if Walk(s, ns).Some? && Walk(s, ns).value in s.nodes
    then Some(File(Walk(s, ns).value, s.nodes[Walk(s, ns).value].inode))
    else None
  }

  /** What a step does to paths. */
  datatype Change = Keep | Put(path: Names, file: File) | Delete(path: Names) | Carry(from: Names, to: Names)

  ghost function ChangeOf(s: Tree, step: Step): Change
    requires Enabled(s, step)
  {
    match step
    case Create(dir, name, id, inode) => Put(s.nodes[dir].path + [name], File(id, inode))
    case Link(target, dir, name, id) => Put(s.nodes[dir].path + [name], File(id, s.nodes[target].inode))
    case LookUp(dir, name, id, inode) =>
      if name in s.nodes[dir].children then Keep else Put(s.nodes[dir].path + [name], File(id, inode))
    case Remove(_, child) => Delete(s.nodes[child].path)
    case Move(dir, name, newDir, newName) => Carry(s.nodes[dir].path + [name], s.nodes[newDir].path + [newName])
  }

  /** A name space: every path and what it leads to. */
  type NameSpace = Names -> Option<File>

  function Changed(f: NameSpace, c: Change): NameSpace {
    match c
    case Keep => f
    case Put(path, file) => (ns: Names) => if ns == path then Some(file) else f(ns)
    case Delete(path) => (ns: Names) => if ns == path then None else f(ns)
    case Carry(from, to) => (ns: Names) => if ns == to then f(from) else if ns == from then None else f(ns)
  }

  ghost predicate Looks(s: Tree, f: NameSpace) {
    forall ns :: f(ns) == Look(s, ns)
  }

  /** The tree and the cache lead the same way. */
  lemma LookIs(s: Tree, ns: Names)
    requires Inv(s)
    ensures ns in s.cache ==> s.cache[ns] in s.nodes && s.nodes[s.cache[ns]].path == ns
    ensures Look(s, ns) == if ns in s.cache then Some(File(s.cache[ns], s.nodes[s.cache[ns]].inode)) else None
  {
    InvIndex(s);
    assert Walk(s, ns) == Cached(s, ns);
  }

  lemma AddLooks(s: Tree, dir: nat, name: string, id: nat, inode: nat, ns: Names)
    requires Inv(s) && CanAdd(s, dir, name) && id !in s.nodes
    ensures Look(Add(s, dir, name, id, inode), ns) ==
      if ns == s.nodes[dir].path + [name] then Some(File(id, inode)) else Look(s, ns)
  {
    AddKeeps(s, dir, name, id, inode);
    LookIs(s, ns);
    LookIs(Add(s, dir, name, id, inode), ns);
  }

  lemma UnlinkLooks(s: Tree, dir: nat, child: nat, ns: Names)
    requires Inv(s) && Enabled(s, Remove(dir, child))
    ensures Look(Unlink(s, dir, child), ns) == if ns == s.nodes[child].path then None else Look(s, ns)
  {
    UnlinkKeeps(s, dir, child);
    LookIs(s, ns);
    LookIs(Unlink(s, dir, child), ns);
  }

  lemma RenameLooks(s: Tree, dir: nat, name: string, newDir: nat, newName: string, ns: Names)
    requires Inv(s) && CanRename(s, dir, name, newDir, newName) && IsLeaf(s, s.nodes[dir].children[name])
    ensures var from, to := s.nodes[dir].path + [name], s.nodes[newDir].path + [newName];
      Look(Rename(s, dir, name, newDir, newName), ns) ==
        if ns == to then Look(s, from) else if ns == from then None else Look(s, ns)
  {
    RenameKeeps(s, dir, name, newDir, newName);
    ChildOf(s, dir, name);
    NodeAt(s, s.nodes[dir].children[name]);
    LookIs(s, ns);
    LookIs(s, s.nodes[dir].path + [name]);
    LookIs(Rename(s, dir, name, newDir, newName), ns);
  }

  /** Each step changes the paths it names and no other. */
  lemma StepLooks(s: Tree, step: Step, f: NameSpace)
    requires Inv(s) && Enabled(s, step) && Looks(s, f)
    ensures Looks(Apply(s, step), Changed(f, ChangeOf(s, step)))
  {
    forall ns ensures Changed(f, ChangeOf(s, step))(ns) == Look(Apply(s, step), ns) {
      match step
      case Create(dir, name, id, inode) => AddLooks(s, dir, name, id, inode, ns);
      case Link(target, dir, name, id) => AddLooks(s, dir, name, id, s.nodes[target].inode, ns);
      case LookUp(dir, name, id, inode) =>
        if name !in s.nodes[dir].children {
          AddLooks(s, dir, name, id, inode, ns);
        }
      case Remove(dir, child) => UnlinkLooks(s, dir, child, ns);
      case Move(dir, name, newDir, newName) => RenameLooks(s, dir, name, newDir, newName, ns);
    }
  }

  ghost function ChangedBy(f: NameSpace, s: Tree, steps: seq<Step>): NameSpace
    decreases |steps|
  {
    if steps == [] || !Enabled(s, steps[0]) then f
    else ChangedBy(Changed(f, ChangeOf(s, steps[0])), Apply(s, steps[0]), steps[1..])
  }

  /** After any run every path leads where the changes of paths alone put it. */
  lemma {:induction false} RunLooks(s: Tree, steps: seq<Step>, t: Tree, f: NameSpace)
    requires Inv(s) && IsRun(s, steps, t) && Looks(s, f)
    ensures Looks(t, ChangedBy(f, s, steps))
    decreases |steps|
  {
    if steps != [] {
      StepKeeps(s, steps[0]);
      StepLooks(s, steps[0], f);
      RunLooks(Apply(s, steps[0]), steps[1..], t, Changed(f, ChangeOf(s, steps[0])));
    }
  }

  /** Every dentry stores the name it hangs by. */
  ghost predicate Named(s: Tree) {
    forall id :: id in s.nodes && id != ROOT ==> s.nodes[id].name == Key(s.nodes[id])
  }

  /** No new name ends in a tab or a newline. */
  ghost predicate Trimmed(steps: seq<Step>) {
    forall i :: 0 <= i < |steps| && !steps[i].Remove? && !steps[i].Move? ==>
      Paths.FormatPath(steps[i].name) == steps[i].name
  }

  lemma StepNamed(s: Tree, step: Step)
    requires Inv(s) && Named(s) && Enabled(s, step) && Trimmed([step])
    ensures Named(Apply(s, step))
  {
    assert !step.Remove? && !step.Move? ==> Paths.FormatPath([step][0].name) == [step][0].name;
  }

  /** Without such names it stays so, and then `unlink` is safe on every leaf. */
  lemma {:induction false} RunNamed(s: Tree, steps: seq<Step>, t: Tree)
    requires Inv(s) && Named(s) && IsRun(s, steps, t) && Trimmed(steps)
    ensures Named(t) && forall id :: id != ROOT && IsLeaf(t, id) ==> CanUnlink(t, id)
    decreases |steps|
  {
    if steps != [] {
      assert Trimmed([steps[0]]);
      StepNamed(s, steps[0]);
      StepKeeps(s, steps[0]);
      RunNamed(Apply(s, steps[0]), steps[1..], t);
    }
  }

  // ----- where it fails -------------------------------------------------------------

  /** A tree with its root and nothing else, as it is after mounting. */
  ghost function Mounted(name: string, inode: nat): (s: Tree)
    ensures Inv(s) && Named(s)
  {
    Tree(map[ROOT := Node(name, [], None, map[], inode)], map[[] := ROOT])
  }

  /** A file created as "a" and a newline stores the name "a"; after `unlink` it is in the tree and not in the cache. */
  lemma NewlineName()
    ensures var s := Add(Mounted("", 0), ROOT, "a\n", 1, 1);
      Inv(s) && 1 in s.nodes && IsLeaf(s, 1) && !Index(Unlink(s, ROOT, 1))
  {
    var s := Add(Mounted("", 0), ROOT, "a\n", 1, 1);
    AddKeeps(Mounted("", 0), ROOT, "a\n", 1, 1);
    assert "a\n"[..1] == "a";
    UnlinkIndex(s, ROOT, 1);
  }

  /** `/x`, `/x/y` and `/z`. */
  ghost function Small(): (s: Tree)
    ensures Inv(s) && ROOT in s.nodes && s.nodes[ROOT].children == map["x" := 1, "z" := 3]
    ensures 1 in s.nodes && s.nodes[1].children == map["y" := 2] && s.nodes[1].parent == Some(ROOT)
    ensures 3 in s.nodes && s.nodes[3].children == map[] && 4 !in s.nodes
  {
    var m := Mounted("", 0);
    AddKeeps(m, ROOT, "x", 1, 1);
    var a := Add(m, ROOT, "x", 1, 1);
    AddKeeps(a, 1, "y", 2, 2);
    var b := Add(a, 1, "y", 2, 2);
    AddKeeps(b, ROOT, "z", 3, 3);
    Add(b, ROOT, "z", 3, 3)
  }

  /** Unlinking, replacing or moving `/x` leaves `/x/y` in the cache. */
  lemma BelowIsForgotten()
    ensures !Index(Unlink(Small(), ROOT, 1))
    ensures !Index(Add(Small(), ROOT, "x", 4, 4))
    ensures CanRename(Small(), ROOT, "x", 3, "w") && !Index(Rename(Small(), ROOT, "x", 3, "w"))
  {
    var s := Small();
    assert "y" in s.nodes[1].children;
    UnlinkIndex(s, ROOT, 1);
    AddIndex(s, ROOT, "x", 4, 4);
    RenameIndex(s, ROOT, "x", 3, "w");
  }
}
