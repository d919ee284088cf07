/**
 Directory entries and the path cache as they are changed in place, with paths as strings
 (os/src/fs/dentry.rs, os/src/fs/ext4/ext4_dentry.rs, os/src/fs/simplefs/simple_dentry.rs).
 */
module FileTree {

  import opened Options
  import opened Paths
  import D = Dentries

  datatype Dentry = Dentry(name: string, path: string, parent: Option<nat>, children: map<string, nat>, inode: nat)

  /** `d` is the node `n` with its path written out. */
  ghost predicate Same(d: Dentry, n: D.Node) {
    && d.name == n.name && d.parent == n.parent && d.children == n.children && d.inode == n.inode
    && AreNames(n.path) && d.path == Path(n.path)
  }

  /** Of all the dentries ever made, the ones in the tree are as the tree says. */
  ghost predicate Shows(dentries: map<nat, Dentry>, nodes: map<nat, D.Node>) {
    forall id {:trigger nodes[id]} {:trigger id in nodes} ::
      id in nodes ==> id in dentries && Same(dentries[id], nodes[id])
  }

  ghost predicate KeyOk(cache: map<string, nat>, abs: map<seq<string>, nat>, ns: seq<string>)
    requires ns in abs
  {
    AreNames(ns) && Path(ns) in cache && cache[Path(ns)] == abs[ns]
  }

  ghost predicate PathOk(abs: map<seq<string>, nat>, p: string) {
    Names(p) in abs && Path(Names(p)) == p
  }

  /** The cache by path string and the cache by component list agree. */
  ghost predicate Keyed(cache: map<string, nat>, abs: map<seq<string>, nat>) {
    && (forall ns {:trigger KeyOk(cache, abs, ns)} :: ns in abs ==> KeyOk(cache, abs, ns))
    && (forall p {:trigger PathOk(abs, p)} :: p in cache ==> PathOk(abs, p))
  }

  lemma KeyedInsert(cache: map<string, nat>, abs: map<seq<string>, nat>, ns: seq<string>, id: nat)
    requires Keyed(cache, abs) && AreNames(ns)
    ensures Keyed(cache[Path(ns) := id], abs[ns := id])
  {
    var c, a := cache[Path(ns) := id], abs[ns := id];
    NamesOfPath(ns);
    forall m | m in a ensures KeyOk(c, a, m) {
      if m != ns {
        assert KeyOk(cache, abs, m);
        NamesOfPath(m);
      }
    }
    forall p | p in c ensures PathOk(a, p) {
      if p != Path(ns) {
        assert PathOk(abs, p);
      }
    }
  }

  lemma KeyedRemove(cache: map<string, nat>, abs: map<seq<string>, nat>, ns: seq<string>)
    requires Keyed(cache, abs) && AreNames(ns)
    ensures Keyed(cache - {Path(ns)}, abs - {ns})
  {
    var c, a := cache - {Path(ns)}, abs - {ns};
    NamesOfPath(ns);
    forall m | m in a ensures KeyOk(c, a, m) {
      assert KeyOk(cache, abs, m);
      NamesOfPath(m);
    }
    forall p | p in c ensures PathOk(a, p) {
      assert PathOk(abs, p);
    }
  }

  lemma KeyedGet(cache: map<string, nat>, abs: map<seq<string>, nat>, p: string)
    requires Keyed(cache, abs) && p in cache
    ensures Names(p) in abs && abs[Names(p)] == cache[p]
  {
    assert PathOk(abs, p);
    assert KeyOk(cache, abs, Names(p));
  }

  /** `sys_linkat` asks the cache whether a path is in use: it is told so exactly if the path is also canonical. */
  lemma LinkTest(cache: map<string, nat>, abs: map<seq<string>, nat>, p: string)
    requires Keyed(cache, abs)
    ensures p in cache <==> Names(p) in abs && Path(Names(p)) == p
  {
    if p in cache {
      assert PathOk(abs, p);
    }
    if Names(p) in abs {
      assert KeyOk(cache, abs, Names(p));
    }
  }

  /** So `/x/` passes for new when `/x` is there, and `link` replaces it. */
  lemma SlashPassesForNew(cache: map<string, nat>, abs: map<seq<string>, nat>)
    requires Keyed(cache, abs) && ["x"] in abs
    ensures "/x/" !in cache && DentryName("/x/") == "x" && ParentPath("/x/") == "/"
  {
    LinkTest(cache, abs, "/x/");
    FieldsOfName("x", "/", "");
    assert "x/" == "x" + "/" && "/x/"[1..] == "x/";
    assert Fields("/", "x") == ["x", ""] && "" + "x" == "x";
    assert Fields("/x/", "") == ["", "x", ""];
    assert NonEmpty(["x", ""]) == ["x"] + NonEmpty([""]);
    assert Names("/x/") == ["x"];
    assert LastNonEmpty(["", "x", ""]) == LastNonEmpty(["", "x"]);
  }

  lemma ShowsAdd(ds: map<nat, Dentry>, s: D.Tree, dir: nat, name: string, id: nat, inode: nat, path: string)
    requires Shows(ds, s.nodes) && dir in s.nodes && id !in s.nodes && IsName(name) && path == Path(s.nodes[dir].path + [name])
    ensures var d := ds[dir].(children := ds[dir].children[name := id]);
      Shows(ds[dir := d][id := Dentry(FormatPath(name), path, Some(dir), map[], inode)],
            D.Add(s, dir, name, id, inode).nodes)
  {
  }

  /** The two updates of a new dentry. */
  lemma Attached(ds: map<nat, Dentry>, cache: map<string, nat>, s: D.Tree, dir: nat, name: string, id: nat, inode: nat)
    requires Shows(ds, s.nodes) && Keyed(cache, s.cache) && dir in s.nodes && id !in s.nodes && IsName(name)
    ensures var path := CwdAndName(name, ds[dir].path);
      var d := ds[dir].(children := ds[dir].children[name := id]);
      var t := D.Add(s, dir, name, id, inode);
      && Shows(ds[dir := d][id := Dentry(FormatPath(name), path, Some(dir), map[], inode)], t.nodes)
      && Keyed(cache[path := id], t.cache)
  {
    var ns := s.nodes[dir].path;
    CwdAndNamePath(ns, name);
    KeyedInsert(cache, s.cache, ns + [name], id);
    ShowsAdd(ds, s, dir, name, id, inode, Path(ns + [name]));
  }

  lemma ShowsUnlink(ds: map<nat, Dentry>, s: D.Tree, dir: nat, child: nat)
    requires Shows(ds, s.nodes) && dir in s.nodes && child in s.nodes && dir != child
    ensures var d := ds[dir].(children := ds[dir].children - {ds[child].name});
      Shows(ds[child := ds[child].(parent := None)][dir := d], D.Unlink(s, dir, child).nodes)
  {
  }

  lemma ShowsRename(ds: map<nat, Dentry>, s: D.Tree, dir: nat, name: string, newDir: nat, newName: string, path: string)
    requires Shows(ds, s.nodes) && D.CanRename(s, dir, name, newDir, newName) && s.nodes[dir].children[name] != dir
    requires IsName(newName) && path == Path(s.nodes[newDir].path + [newName])
    ensures var child := s.nodes[dir].children[name];
      var d := ds[dir].(children := ds[dir].children - {name});
      var e := ds[newDir].(children := ds[newDir].children[newName := child]);
      var c := ds[child].(name := newName, path := path, parent := Some(newDir));
      Shows(ds[dir := d][newDir := e][child := c], D.Rename(s, dir, name, newDir, newName).nodes)
  {
  }

  /** The updates of a moved dentry. */
  lemma Renamed(ds: map<nat, Dentry>, cache: map<string, nat>, s: D.Tree, dir: nat, name: string, newDir: nat, newName: string)
    requires Shows(ds, s.nodes) && Keyed(cache, s.cache) && D.CanRename(s, dir, name, newDir, newName)
    requires s.nodes[dir].children[name] != dir && IsName(name) && IsName(newName)
    ensures var child := s.nodes[dir].children[name];
      var oldPath, newPath := CwdAndName(name, ds[dir].path), CwdAndName(newName, ds[newDir].path);
      var d := ds[dir].(children := ds[dir].children - {name});
      var e := ds[newDir].(children := ds[newDir].children[newName := child]);
      var c := ds[child].(name := newName, path := newPath, parent := Some(newDir));
      var t := D.Rename(s, dir, name, newDir, newName);
      && Shows(ds[dir := d][newDir := e][child := c], t.nodes)
      && Keyed((cache - {oldPath})[newPath := child], t.cache)
  {
    var from, to := s.nodes[dir].path + [name], s.nodes[newDir].path + [newName];
    CwdAndNamePath(s.nodes[dir].path, name);
    CwdAndNamePath(s.nodes[newDir].path, newName);
    KeyedRemove(cache, s.cache, from);
    KeyedInsert(cache - {Path(from)}, s.cache - {from}, to, s.nodes[dir].children[name]);
    ShowsRename(ds, s, dir, name, newDir, newName, Path(to));
  }

  /** `t` has everything `s` has at the same place, and beside it only what is on the disk. */
  ghost predicate Loaded(s: D.Tree, t: D.Tree, disk: set<string>) {
    forall id {:trigger LoadedAt(s, t, disk, id)} :: LoadedAt(s, t, disk, id)
  }

  ghost predicate LoadedAt(s: D.Tree, t: D.Tree, disk: set<string>, id: nat) {
    && (id in s.nodes ==> id in t.nodes && t.nodes[id].path == s.nodes[id].path)
    && (id in t.nodes && id !in s.nodes ==> Path(t.nodes[id].path) in disk)
  }

  ghost predicate Missing(s: D.Tree, names: seq<string>, disk: set<string>, k: nat)
    requires k < |names|
  {
    D.Walk(s, names[..k]).Some? && D.Walk(s, names[..k + 1]).None? && Path(names[..k + 1]) !in disk
  }

  /** The walk gets as far as some component that is neither in the tree nor on the disk. */
  ghost predicate Lost(s: D.Tree, names: seq<string>, disk: set<string>) {
    exists k :: 0 <= k < |names| && Missing(s, names, disk, k)
  }

  class FileTree {
    /** Every dentry made so far, in the tree or not. */
    var dentries: map<nat, Dentry>
    var cache: map<string, nat>
    /** Above every dentry made so far. */
    var next: nat
    ghost var tree: D.Tree

    /** Fields and tree are two forms of one state. */
    ghost predicate Coupled()
      reads this
    {
      && Shows(dentries, tree.nodes) && Keyed(cache, tree.cache)
      && forall id :: id in dentries ==> id < next
    }

    ghost predicate Valid()
      reads this
    {
      Coupled() && D.Inv(tree)
    }

    constructor (inode: nat)
      ensures Valid()
    {
      dentries := map[D.ROOT := Dentry(FormatPath("/"), "/", None, map[], inode)];
      cache := map["/" := D.ROOT];
      next := 1;
      tree := D.Mounted(FormatPath("/"), inode);
      NamesOfPath([]);
    }

    /** Hangs a new dentry under `dir` and enters its path, over whatever was there. */
    method Attach(dir: nat, name: string, stored: string, inode: nat) returns (id: nat)
      requires Valid() && dir in tree.nodes && IsName(name) && stored == FormatPath(name)
      modifies this
      ensures Coupled() && id !in old(dentries) && tree == D.Add(old(tree), dir, name, id, inode)
      ensures D.CanAdd(old(tree), dir, name) ==> Valid()
    {
      id := next;
      next := next + 1;
      assert id !in tree.nodes;
      var path := CwdAndName(name, dentries[dir].path);
      Attached(dentries, cache, tree, dir, name, id, inode);
      if D.CanAdd(tree, dir, name) {
        D.AddKeeps(tree, dir, name, id, inode);
      }
      var d := dentries[dir];
      dentries := dentries[dir := d.(children := d.children[name := id])];
      dentries := dentries[id := Dentry(stored, path, Some(dir), map[], inode)];
      cache := cache[path := id];
      tree := D.Add(tree, dir, name, id, inode);
    }

    /** A new inode; the stored name is the last one of the path, trimmed. */
    method Create(dir: nat, name: string, inode: nat) returns (id: nat)
      requires Valid() && dir in tree.nodes && IsName(name)
      modifies this
      ensures Coupled() && id !in old(dentries) && tree == D.Add(old(tree), dir, name, id, inode)
      ensures D.CanAdd(old(tree), dir, name) ==> Valid() && tree == D.Apply(old(tree), D.Create(dir, name, id, inode))
    {
      var path := CwdAndName(name, dentries[dir].path);
      ParentAndName(tree.nodes[dir].path, name);
      id := Attach(dir, name, FormatPath(DentryName(path)), inode);
    }

    /** A second name for the inode of `target`. */
    method Link(target: nat, dir: nat, name: string) returns (id: nat)
      requires Valid() && target in tree.nodes && dir in tree.nodes && IsName(name)
      modifies this
      ensures Coupled() && id !in old(dentries)
      ensures tree == D.Add(old(tree), dir, name, id, old(tree).nodes[target].inode)
      ensures D.CanAdd(old(tree), dir, name) ==> Valid() && tree == D.Apply(old(tree), D.Link(target, dir, name, id))
    {
      id := Attach(dir, name, FormatPath(name), dentries[target].inode);
    }

    /** The child by that name, read from the disk if it is only there. */
    method LookUp(dir: nat, name: string, disk: set<string>, inode: nat) returns (r: Option<nat>)
      requires Valid() && dir in tree.nodes && IsName(name)
      modifies this
      ensures Valid()
      ensures r.Some? <==> name in old(tree).nodes[dir].children || CwdAndName(name, old(dentries)[dir].path) in disk
      ensures name in old(tree).nodes[dir].children ==> tree == old(tree) && r == Some(old(tree).nodes[dir].children[name])
      ensures r.None? ==> tree == old(tree)
      ensures name !in old(tree).nodes[dir].children && r.Some? ==>
        r.value !in old(dentries) && tree == D.Apply(old(tree), D.LookUp(dir, name, r.value, inode))
    {
      if name in dentries[dir].children {
        return Some(dentries[dir].children[name]);
      }
      if CwdAndName(name, dentries[dir].path) !in disk {
        return None;
      }
      var id := Attach(dir, name, FormatPath(name), inode);
      r := Some(id);
    }

    /** Out of the cache by its path, out of its directory by the name it stores. */
    method Unlink(dir: nat, child: nat)
      requires Valid() && dir in tree.nodes && child in tree.nodes && child != D.ROOT && dentries[child].parent == Some(dir)
      modifies this
      ensures Coupled() && tree == D.Unlink(old(tree), dir, child) && child in dentries && dentries[child].parent == None
      ensures D.CanUnlink(old(tree), child) ==> Valid() && tree == D.Apply(old(tree), D.Remove(dir, child))
    {
      var c, d := dentries[child], dentries[dir];
      D.PathBelow(tree, child);
      KeyedRemove(cache, tree.cache, tree.nodes[child].path);
      ShowsUnlink(dentries, tree, dir, child);
      if D.CanUnlink(tree, child) {
        D.UnlinkKeeps(tree, dir, child);
      }
      dentries := dentries[child := c.(parent := None)];
      cache := cache - {c.path};
      dentries := dentries[dir := d.(children := d.children - {c.name})];
      tree := D.Unlink(tree, dir, child);
    }

    /**
     To a free name in another directory, or refused (`ENOTEMPTY`). `isDir` is the mode of what
     has the name already.
     */
    method Rename(dir: nat, name: string, newDir: nat, newName: string, isDir: bool) returns (ok: bool)
      requires Valid() && IsName(name) && IsName(newName)
      requires D.CanRename(tree, dir, name, newDir, newName) || D.RefusesRename(tree, dir, newDir, newName, isDir)
      modifies this
      ensures ok <==> D.CanRename(old(tree), dir, name, newDir, newName)
      ensures ok ==> Coupled() && tree == D.Rename(old(tree), dir, name, newDir, newName)
      ensures ok && D.IsLeaf(old(tree), old(tree).nodes[dir].children[name]) ==>
        Valid() && tree == D.Apply(old(tree), D.Move(dir, name, newDir, newName))
      ensures !ok ==> unchanged(this)
    {
      var e := dentries[newDir];
      if newName in e.children && isDir && dentries[e.children[newName]].children != map[] {
        return false;
      }
      MoveTo(dir, name, newDir, newName);
      ok := true;
    }

    method MoveTo(dir: nat, name: string, newDir: nat, newName: string)
      requires Valid() && D.CanRename(tree, dir, name, newDir, newName) && IsName(name) && IsName(newName)
      modifies this
      ensures Coupled() && tree == D.Rename(old(tree), dir, name, newDir, newName)
      ensures D.IsLeaf(old(tree), old(tree).nodes[dir].children[name]) ==> Valid()
    {
      var d, e := dentries[dir], dentries[newDir];
      var child := d.children[name];
      var oldPath, newPath := CwdAndName(name, d.path), CwdAndName(newName, e.path);
      D.ChildOf(tree, dir, name);
      Renamed(dentries, cache, tree, dir, name, newDir, newName);
      if D.IsLeaf(tree, child) {
        D.RenameKeeps(tree, dir, name, newDir, newName);
      }
      dentries := dentries[dir := d.(children := d.children - {name})];
      dentries := dentries[newDir := e.(children := e.children[newName := child])];
      dentries := dentries[child := dentries[child].(name := newName, path := newPath, parent := Some(newDir))];
      cache := (cache - {oldPath})[newPath := child];
      tree := D.Rename(tree, dir, name, newDir, newName);
    }

    /** A child that is in the tree; entering it in the cache again changes nothing. */
    method Recache(child: nat)
      requires Valid() && child in tree.nodes
      modifies this`cache
      ensures Valid()
    {
      D.NodeAt(tree, child);
      KeyedInsert(cache, tree.cache, tree.nodes[child].path, child);
      assert tree.cache[tree.nodes[child].path := child] == tree.cache;
      cache := cache[dentries[child].path := child];
    }

    /** One component further down, in the tree or from the disk. */
    method Descend(at: nat, name: string, disk: set<string>, inode: nat, ghost ns: seq<string>) returns (r: Option<nat>)
      requires Valid() && IsName(name) && D.Walk(tree, ns) == Some(at)
      modifies this
      ensures Valid() && Loaded(old(tree), tree, disk)
      ensures D.Walk(tree, ns) == Some(at) && r == D.Walk(tree, ns + [name])
      ensures r.None? ==> Path(ns + [name]) !in disk
    {
      D.WalkLeads(tree, ns);
      CwdAndNamePath(ns, name);
      SameStep(tree, at, name, ns, disk);
      if name in dentries[at].children {
        r := Some(dentries[at].children[name]);
        D.ChildOf(tree, at, name);
        Recache(r.value);
      } else {
        ghost var before := tree;
        r := LookUp(at, name, disk, inode);
        if r.Some? {
          LoadedAdd(before, at, name, r.value, inode, disk);
          AddedStep(before, at, name, r.value, inode, ns);
          SameStep(tree, at, name, ns, disk);
        }
        assert r == D.Down(tree, Some(at), name);
      }
    }

    /**
     For any path string: the dentry reached by its nonempty components, through the tree and,
     where the tree ends, the disk. Without one, the first component missing is on neither.
     */
    method PathToDentry(path: string, disk: set<string>, inode: nat) returns (r: Option<nat>)
      requires Valid()
      modifies this
      ensures Valid() && Loaded(old(tree), tree, disk)
      ensures r == D.Walk(tree, Names(path))
      ensures r.None? ==> Lost(tree, Names(path), disk)
    {
      if path in cache {
        KeyedGet(cache, tree.cache, path);
        D.InvIndex(tree);
        assert D.Walk(tree, Names(path)) == D.Cached(tree, Names(path));
        return Some(cache[path]);
      }
      NamesAreNames(path);
      r := WalkDown(Names(path), disk, inode);
    }

    method WalkDown(names: seq<string>, disk: set<string>, inode: nat) returns (r: Option<nat>)
      requires Valid() && AreNames(names)
      modifies this
      ensures Valid() && Loaded(old(tree), tree, disk)
      ensures r == D.Walk(tree, names)
      ensures r.None? ==> Lost(tree, names, disk)
    {
      var at, k := D.ROOT, 0;
      ghost var start := tree;
      while k < |names|
        invariant 0 <= k <= |names| && Valid() && Loaded(start, tree, disk)
        invariant D.Walk(tree, names[..k]) == Some(at)
      {
        var child := Follow(names, k, at, disk, inode, start);
        if child.None? {
          return None;
        }
        at, k := child.value, k + 1;
      }
      assert names[..k] == names;
      r := Some(at);
    }

    /** Component `k` of a path. */
    method Follow(names: seq<string>, k: nat, at: nat, disk: set<string>, inode: nat, ghost start: D.Tree)
      returns (r: Option<nat>)
      requires Valid() && AreNames(names) && k < |names| && D.Walk(tree, names[..k]) == Some(at) && Loaded(start, tree, disk)
      modifies this
      ensures Valid() && Loaded(start, tree, disk)
      ensures r == D.Walk(tree, names[..k + 1])
      ensures r.None? ==> D.Walk(tree, names).None? && Lost(tree, names, disk)
    {
      ghost var before := tree;
      assert IsName(names[k]) && names[..k + 1] == names[..k] + [names[k]];
      r := Descend(at, names[k], disk, inode, names[..k]);
      LoadedTrans(start, before, tree, disk);
      if r.None? {
        StopsHere(tree, names, k, disk);
      }
    }
  }

  lemma StopsHere(s: D.Tree, names: seq<string>, k: nat, disk: set<string>)
    requires k < |names| && D.Walk(s, names[..k]).Some? && D.Walk(s, names[..k] + [names[k]]).None?
    requires Path(names[..k] + [names[k]]) !in disk
    ensures D.Walk(s, names).None? && Lost(s, names, disk)
  {
    assert names[..k] + [names[k]] == names[..k + 1];
    WalkStops(s, names, k + 1);
    assert Missing(s, names, disk, k);
  }

  /** A step down in a tree that does not change. */
  lemma SameStep(s: D.Tree, at: nat, name: string, ns: seq<string>, disk: set<string>)
    requires D.Walk(s, ns) == Some(at)
    ensures Loaded(s, s, disk) && D.Walk(s, ns + [name]) == D.Down(s, Some(at), name)
  {
    assert (ns + [name])[..|ns|] == ns;
  }

  /** What is read from the disk does not change the way to where it hangs. */
  lemma AddedStep(s: D.Tree, at: nat, name: string, id: nat, inode: nat, ns: seq<string>)
    requires D.Inv(s) && D.Walk(s, ns) == Some(at) && at in s.nodes && name !in s.nodes[at].children && id !in s.nodes
    ensures D.Walk(D.Add(s, at, name, id, inode), ns) == Some(at)
    ensures D.Down(D.Add(s, at, name, id, inode), Some(at), name) == Some(id)
  {
    D.AddKeeps(s, at, name, id, inode);
    KeptAt(s, D.Add(s, at, name, id, inode), at, ns);
  }

  lemma LoadedAdd(s: D.Tree, dir: nat, name: string, id: nat, inode: nat, disk: set<string>)
    requires dir in s.nodes && id !in s.nodes && Path(s.nodes[dir].path + [name]) in disk && name !in s.nodes[dir].children
    ensures Loaded(s, D.Add(s, dir, name, id, inode), disk)
  {
  }

  lemma LoadedTrans(s: D.Tree, t: D.Tree, u: D.Tree, disk: set<string>)
    requires Loaded(s, t, disk) && Loaded(t, u, disk)
    ensures Loaded(s, u, disk)
  {
    forall id ensures LoadedAt(s, u, disk, id) {
      assert LoadedAt(s, t, disk, id) && LoadedAt(t, u, disk, id);
    }
  }

  lemma KeptAt(s: D.Tree, t: D.Tree, at: nat, ns: seq<string>)
    requires D.Inv(s) && D.Inv(t) && D.Walk(s, ns) == Some(at) && at in t.nodes && at in s.nodes
    requires t.nodes[at].path == s.nodes[at].path
    ensures D.Walk(t, ns) == Some(at)
  {
    D.WalkLeads(s, ns);
    D.WalkReaches(t, at);
  }

  /** Where a walk stops it does not go on. */
  lemma {:induction false} WalkStops(s: D.Tree, ns: seq<string>, k: nat)
    requires k <= |ns| && D.Walk(s, ns[..k]).None?
    ensures D.Walk(s, ns).None?
    decreases |ns| - k
  {
    if k == |ns| {
      assert ns[..k] == ns;
    } else {
      assert ns[..k + 1][..k] == ns[..k];
      WalkStops(s, ns, k + 1);
    }
  }
}
