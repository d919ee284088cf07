/**
 Cluster chains in a file allocation table, and the files that grow and shrink over it
 (os/src/fs/fat32/fat.rs, os/src/fs/fat32/fat_file.rs, os/src/fs/fat32/fsinfo.rs).
 Sectors are plain memory here: entry `i` of the table is `entries[i]`.
 */
module Fat {

  import opened Bitmap
  import opened Options

  const MAX_CLUSTER: nat := 0x0FFF_FFEF
  const END: nat := 0x0FFF_FFFF
  const END8: nat := 0x0FFF_FFF8
  const SECTOR_SIZE: nat := 512

  datatype Status = Free | EndOfFile | Next(cluster: nat) | Wrong

  function StatusOf(value: nat): Status {
    if value == 0 then Free
    else if value == END || value == END8 then EndOfFile
    else if 2 <= value <= MAX_CLUSTER then Next(value)
    else Wrong
  }

  /** The entries, with the counters of the FSInfo sector. */
  datatype Table = Table(entries: seq<nat>, freeCount: nat, nxtFree: nat)

  ghost predicate InTable(entries: seq<nat>, c: nat) {
    2 <= c < |entries|
  }

  /** `c` is what following the entries from `c[0]` to an end-of-file mark visits. */
  ghost predicate IsChain(entries: seq<nat>, c: seq<nat>) {
    && c != []
    && (forall i :: 0 <= i < |c| ==> InTable(entries, c[i]))
    && (forall i :: 0 <= i < |c| - 1 ==> StatusOf(entries[c[i]]) == Next(c[i + 1]))
    && StatusOf(entries[c[|c| - 1]]) == EndOfFile
  }

  lemma ChainTail(entries: seq<nat>, c: seq<nat>)
    requires IsChain(entries, c) && |c| > 1
    ensures IsChain(entries, c[1..])
  {
    var t := c[1..];
    assert forall i :: 0 <= i < |t| ==> t[i] == c[i + 1];
  }

  /** The table leaves no choice: a first cluster has at most one chain. */
  lemma {:induction false} OneChain(entries: seq<nat>, c: seq<nat>, d: seq<nat>)
    requires IsChain(entries, c) && IsChain(entries, d) && c[0] == d[0]
    ensures c == d
    decreases |c|
  {
    assert |c| > 1 ==> StatusOf(entries[c[0]]) == Next(c[1]);
    assert |d| > 1 ==> StatusOf(entries[d[0]]) == Next(d[1]);
    if |c| > 1 {
      ChainTail(entries, c);
      ChainTail(entries, d);
      OneChain(entries, c[1..], d[1..]);
      assert c == [c[0]] + c[1..] && d == [d[0]] + d[1..];
    }
  }

  lemma {:induction false} ChainFrom(entries: seq<nat>, c: seq<nat>, i: nat)
    requires IsChain(entries, c) && i < |c|
    ensures IsChain(entries, c[i..])
    decreases i
  {
    if i > 0 {
      ChainFrom(entries, c, i - 1);
      ChainTail(entries, c[i - 1..]);
      assert c[i - 1..][1..] == c[i..];
    } else {
      assert c[0..] == c;
    }
  }

  /** A chain that comes to an end visits no cluster twice. */
  lemma NoRepeats(entries: seq<nat>, c: seq<nat>, i: nat, j: nat)
    requires IsChain(entries, c) && i < j < |c|
    ensures c[i] != c[j]
  {
    if c[i] == c[j] {
      ChainFrom(entries, c, i);
      ChainFrom(entries, c, j);
      OneChain(entries, c[i..], c[j..]);
      assert false;
    }
  }

  ghost function FreeSet(entries: seq<nat>): set<nat> {
    set i: nat | 2 <= i < |entries| && entries[i] == 0
  }

  ghost predicate TableOk(t: Table) {
    && 2 <= t.nxtFree <= |t.entries| <= MAX_CLUSTER + 1
    && (forall i :: t.nxtFree <= i < |t.entries| ==> t.entries[i] == 0)
    && t.freeCount == |FreeSet(t.entries)|
  }

  /** The cluster at the mark becomes the new end of the chain that ended in `prev`, if any. */
  function Alloc(t: Table, prev: Option<nat>): Table
    requires t.nxtFree < |t.entries| && t.freeCount > 0 && (prev.Some? ==> prev.value < |t.entries|)
  {
    var e := if prev.Some? then t.entries[prev.value := t.nxtFree] else t.entries;
    Table(e[t.nxtFree := END], t.freeCount - 1, t.nxtFree + 1)
  }

  /** Cluster `id` is freed and `prev`, if any, becomes the end. The mark stays. */
  function Release(t: Table, id: nat, prev: Option<nat>): Table
    requires id < |t.entries| && (prev.Some? ==> prev.value < |t.entries|)
  {
    var e := if prev.Some? then t.entries[prev.value := END] else t.entries;
    Table(e[id := 0], t.freeCount + 1, t.nxtFree)
  }

  /** Every cluster of a table, written as an entry, reads back as a link to that cluster. */
  lemma LinkReads(t: Table, c: nat)
    requires TableOk(t) && InTable(t.entries, c)
    ensures StatusOf(c) == Next(c)
    ensures c in FreeSet(t.entries) <==> StatusOf(t.entries[c]) == Free
  {
  }

  /** The standard has eight end marks, 0x0FFFFFF8 to 0x0FFFFFFF; the first and the last are read as such, the others as errors. */
  lemma EndMarks(v: nat)
    requires 0x0FFF_FFF8 <= v <= 0x0FFF_FFFF
    ensures StatusOf(v) == if v == 0x0FFF_FFF8 || v == 0x0FFF_FFFF then EndOfFile else Wrong
  {
  }

  ghost predicate Apart(c: seq<nat>, d: seq<nat>) {
    forall i, j :: 0 <= i < |c| && 0 <= j < |d| ==> c[i] != d[j]
  }

  lemma FreeSetUpdate(entries: seq<nat>, i: nat, v: nat)
    requires InTable(entries, i)
    ensures FreeSet(entries[i := v]) == if v == 0 then FreeSet(entries) + {i} else FreeSet(entries) - {i}
  {
  }

  lemma RoomCounts(t: Table)
    requires TableOk(t) && t.nxtFree < |t.entries|
    ensures t.freeCount > 0
  {
    assert t.nxtFree in FreeSet(t.entries);
  }

  lemma AllocTable(t: Table, prev: nat)
    requires TableOk(t) && t.nxtFree < |t.entries| && InTable(t.entries, prev) && t.entries[prev] != 0
    ensures t.freeCount > 0 && TableOk(Alloc(t, Some(prev)))
  {
    RoomCounts(t);
    var e := t.entries[prev := t.nxtFree];
    FreeSetUpdate(t.entries, prev, t.nxtFree);
    FreeSetUpdate(e, t.nxtFree, END);
    assert t.nxtFree in FreeSet(e) && prev !in FreeSet(t.entries);
  }

  lemma AllocChain(t: Table, c: seq<nat>)
    requires TableOk(t) && t.nxtFree < |t.entries| && t.freeCount > 0 && IsChain(t.entries, c)
    ensures IsChain(Alloc(t, Some(c[|c| - 1])).entries, c + [t.nxtFree])
  {
    forall i, j | 0 <= i < j < |c| ensures c[i] != c[j] {
      NoRepeats(t.entries, c, i, j);
    }
  }

  /** A chain that shares no cluster with what is written is not disturbed. */
  lemma ChainKept(e: seq<nat>, f: seq<nat>, d: seq<nat>)
    requires IsChain(e, d) && |e| == |f| && forall i :: 0 <= i < |d| ==> f[d[i]] == e[d[i]]
    ensures IsChain(f, d)
  {
  }

  lemma ReleaseTable(t: Table, id: nat, prev: nat)
    requires TableOk(t) && InTable(t.entries, id) && InTable(t.entries, prev) && id != prev
    requires t.entries[id] != 0 && t.entries[prev] != 0
    ensures TableOk(Release(t, id, Some(prev)))
  {
    var e := t.entries[prev := END];
    FreeSetUpdate(t.entries, prev, END);
    FreeSetUpdate(e, id, 0);
    assert id !in FreeSet(e) && prev !in FreeSet(t.entries);
  }

  lemma ReleaseChain(t: Table, c: seq<nat>)
    requires IsChain(t.entries, c) && |c| > 1
    ensures IsChain(Release(t, c[|c| - 1], Some(c[|c| - 2])).entries, c[..|c| - 1])
  {
    forall i, j | 0 <= i < j < |c| ensures c[i] != c[j] {
      NoRepeats(t.entries, c, i, j);
    }
  }

  // ----- one file -----------------------------------------------------------------

  function Grow(t: Table, c: seq<nat>, n: nat): (Table, seq<nat>)
    requires c != [] && (|c| < n ==> t.nxtFree + (n - |c|) <= |t.entries| && t.freeCount >= n - |c|)
    requires c[|c| - 1] < |t.entries|
    decreases n - |c|
  {
    if |c| >= n then (t, c)
    else Grow(Alloc(t, Some(c[|c| - 1])), c + [t.nxtFree], n)
  }

  function Shrink(t: Table, c: seq<nat>, n: nat): (Table, seq<nat>)
    requires n >= 1 && forall i :: 0 <= i < |c| ==> c[i] < |t.entries|
    decreases |c|
  {
    if |c| <= n then (t, c)
    else Shrink(Release(t, c[|c| - 1], Some(c[|c| - 2])), c[..|c| - 1], n)
  }

  /** Every chain apart from `c` in `t` is a chain apart from `d` in `u`. */
  ghost predicate OthersKept(t: Table, c: seq<nat>, u: Table, d: seq<nat>) {
    forall other :: IsChain(t.entries, other) && Apart(other, c) ==> IsChain(u.entries, other) && Apart(other, d)
  }

  lemma AllocStep(t: Table, c: seq<nat>)
    requires TableOk(t) && t.nxtFree < |t.entries| && IsChain(t.entries, c)
    ensures t.freeCount > 0
    ensures var u := Alloc(t, Some(c[|c| - 1]));
      TableOk(u) && IsChain(u.entries, c + [t.nxtFree]) && OthersKept(t, c, u, c + [t.nxtFree])
  {
    AllocTable(t, c[|c| - 1]);
    AllocChain(t, c);
    var u := Alloc(t, Some(c[|c| - 1]));
    forall other | IsChain(t.entries, other) && Apart(other, c)
      ensures IsChain(u.entries, other) && Apart(other, c + [t.nxtFree])
    {
      forall i | 0 <= i < |other| ensures other[i] != c[|c| - 1] && other[i] != t.nxtFree {
        assert i < |other| - 1 ==> StatusOf(t.entries[other[i]]) == Next(other[i + 1]);
      }
      ChainKept(t.entries, u.entries, other);
    }
  }

  lemma ReleaseStep(t: Table, c: seq<nat>)
    requires TableOk(t) && IsChain(t.entries, c) && |c| > 1
    ensures var u := Release(t, c[|c| - 1], Some(c[|c| - 2]));
      TableOk(u) && IsChain(u.entries, c[..|c| - 1]) && OthersKept(t, c, u, c[..|c| - 1])
  {
    NoRepeats(t.entries, c, |c| - 2, |c| - 1);
    ReleaseTable(t, c[|c| - 1], c[|c| - 2]);
    ReleaseChain(t, c);
    var u := Release(t, c[|c| - 1], Some(c[|c| - 2]));
    forall other | IsChain(t.entries, other) && Apart(other, c)
      ensures IsChain(u.entries, other) && Apart(other, c[..|c| - 1])
    {
      assert forall i :: 0 <= i < |other| ==> other[i] != c[|c| - 1] && other[i] != c[|c| - 2];
      ChainKept(t.entries, u.entries, other);
    }
  }

  lemma KeptTrans(t: Table, c: seq<nat>, u: Table, d: seq<nat>, v: Table, e: seq<nat>)
    requires OthersKept(t, c, u, d) && OthersKept(u, d, v, e)
    ensures OthersKept(t, c, v, e)
  {
    forall other | IsChain(t.entries, other) && Apart(other, c) ensures IsChain(v.entries, other) && Apart(other, e) {
      assert IsChain(u.entries, other) && Apart(other, d);
    }
  }

  lemma {:induction false} RoomFor(t: Table, n: nat)
    requires TableOk(t) && t.nxtFree + n <= |t.entries|
    ensures t.freeCount >= n
  {
    var top := Range(t.nxtFree, t.nxtFree + n);
    RangeSize(t.nxtFree, t.nxtFree + n);
    assert top <= FreeSet(t.entries);
    SubsetSize(top, FreeSet(t.entries));
  }

  lemma {:induction false} RangeSize(s: nat, e: nat)
    requires s <= e
    ensures |Range(s, e)| == e - s
  {
    if s < e {
      RangeSize(s, e - 1);
    }
  }

  lemma {:induction false} SubsetSize(a: set<nat>, b: set<nat>)
    requires a <= b
    ensures |a| <= |b|
  {
    if a != {} {
      var x :| x in a;
      SubsetSize(a - {x}, b - {x});
    }
  }

  /** What was free below the mark is free. */
  ghost predicate StillFree(t: Table, u: Table) {
    && t.nxtFree <= u.nxtFree && |t.entries| == |u.entries|
    && forall i :: 2 <= i < t.nxtFree && i < |t.entries| && t.entries[i] == 0 ==> u.entries[i] == 0
  }

  lemma {:induction false} GrowReusesNone(t: Table, c: seq<nat>, n: nat)
    requires TableOk(t) && IsChain(t.entries, c) && |c| <= n && t.nxtFree + (n - |c|) <= |t.entries|
    requires t.freeCount >= n - |c|
    ensures StillFree(t, Grow(t, c, n).0)
    decreases n - |c|
  {
    if |c| < n {
      var u, d := Alloc(t, Some(c[|c| - 1])), c + [t.nxtFree];
      AllocStep(t, c);
      RoomFor(u, n - |d|);
      assert StillFree(t, u);
      GrowReusesNone(u, d, n);
    }
  }

  lemma {:induction false} ShrinkReusesNone(t: Table, c: seq<nat>, n: nat)
    requires TableOk(t) && IsChain(t.entries, c) && 1 <= n <= |c|
    ensures StillFree(t, Shrink(t, c, n).0)
    decreases |c|
  {
    if |c| > n {
      var u, d := Release(t, c[|c| - 1], Some(c[|c| - 2])), c[..|c| - 1];
      ReleaseStep(t, c);
      assert StatusOf(t.entries[c[|c| - 2]]) == Next(c[|c| - 2 + 1]);
      assert StillFree(t, u);
      ShrinkReusesNone(u, d, n);
    }
  }

  /** Growing appends fresh clusters to this chain and touches no other. */
  lemma {:induction false} GrowCorrect(t: Table, c: seq<nat>, n: nat)
    requires TableOk(t) && IsChain(t.entries, c) && |c| <= n && t.nxtFree + (n - |c|) <= |t.entries|
    ensures t.freeCount >= n - |c|
    ensures var (u, d) := Grow(t, c, n);
      && TableOk(u) && IsChain(u.entries, d) && OthersKept(t, c, u, d)
      && |d| == n && c <= d && u.nxtFree == t.nxtFree + (n - |c|)
    decreases n - |c|
  {
    RoomFor(t, n - |c|);
    if |c| < n {
      AllocStep(t, c);
      var u, d := Alloc(t, Some(c[|c| - 1])), c + [t.nxtFree];
      GrowCorrect(u, d, n);
      var r := Grow(u, d, n);
      KeptTrans(t, c, u, d, r.0, r.1);
    }
  }

  /** Shrinking cuts this chain short, gives the rest back, and touches no other. */
  lemma {:induction false} ShrinkCorrect(t: Table, c: seq<nat>, n: nat)
    requires TableOk(t) && IsChain(t.entries, c) && 1 <= n <= |c|
    ensures var (u, d) := Shrink(t, c, n);
      && TableOk(u) && IsChain(u.entries, d) && OthersKept(t, c, u, d)
      && d == c[..n] && u.nxtFree == t.nxtFree && u.freeCount == t.freeCount + (|c| - n)
    decreases |c|
  {
    if |c| > n {
      ReleaseStep(t, c);
      var u, d := Release(t, c[|c| - 1], Some(c[|c| - 2])), c[..|c| - 1];
      ShrinkCorrect(u, d, n);
      var r := Shrink(u, d, n);
      KeptTrans(t, c, u, d, r.0, r.1);
      assert d[..n] == c[..n];
    } else {
      assert c[..n] == c;
    }
  }

  /** What the assertions in freeing one cluster after the other, down to `n`, demand. */
  ghost predicate ShrinkPasses(t: Table, c: seq<nat>, n: nat)
    requires n >= 1 && forall i :: 0 <= i < |c| ==> c[i] < |t.entries|
    decreases |c|
  {
    |c| > n ==>
      && t.entries[c[|c| - 2]] == c[|c| - 1] && t.entries[c[|c| - 1]] == END
      && ShrinkPasses(Release(t, c[|c| - 1], Some(c[|c| - 2])), c[..|c| - 1], n)
  }

  /** They hold exactly when nothing is freed or the chain ends in the one mark they know. */
  lemma {:induction false} ShrinkPassesWhen(t: Table, c: seq<nat>, n: nat)
    requires TableOk(t) && IsChain(t.entries, c) && n >= 1
    ensures ShrinkPasses(t, c, n) <==> |c| <= n || t.entries[c[|c| - 1]] == END
    decreases |c|
  {
    if |c| > n {
      assert StatusOf(t.entries[c[|c| - 2]]) == Next(c[|c| - 2 + 1]);
      ReleaseStep(t, c);
      NoRepeats(t.entries, c, |c| - 2, |c| - 1);
      ShrinkPassesWhen(Release(t, c[|c| - 1], Some(c[|c| - 2])), c[..|c| - 1], n);
    }
  }

  // ----- a volume of files --------------------------------------------------------

  /** Clusters needed for `size` bytes. */
  function Clusters(size: nat, cb: nat): nat
    requires cb > 0
  {
    (size + cb - 1) / cb
  }

  lemma Quotient(a: nat, cb: nat, q: nat)
    requires cb > 0
    ensures q <= a / cb <==> q * cb <= a
  {
    var d := a / cb;
    assert d * cb <= a < (d + 1) * cb;
    if q <= d {
      assert q * cb <= d * cb;
    } else {
      assert (d + 1) * cb <= q * cb;
    }
  }

  /** It is the least number of clusters that hold `size` bytes. */
  lemma ClustersLeast(size: nat, cb: nat, n: nat)
    requires cb > 0
    ensures Clusters(size, cb) <= n <==> size <= n * cb
  {
    Quotient(size + cb - 1, cb, n + 1);
    assert (n + 1) * cb == n * cb + cb;
  }

  lemma ClustersMonotone(a: nat, b: nat, cb: nat)
    requires a <= b && cb > 0
    ensures Clusters(a, cb) <= Clusters(b, cb) && (a > 0 ==> Clusters(a, cb) >= 1)
  {
    ClustersLeast(b, cb, Clusters(b, cb));
    ClustersLeast(a, cb, Clusters(b, cb));
    ClustersLeast(a, cb, 0);
  }

  datatype File = File(clusters: seq<nat>, size: nat)

  datatype Volume = Volume(table: Table, files: map<nat, File>)

  ghost predicate FileOk(entries: seq<nat>, f: File, cb: nat)
    requires cb > 0
  {
    f.size > 0 && IsChain(entries, f.clusters) && |f.clusters| == Clusters(f.size, cb)
  }

  ghost predicate Inv(v: Volume, cb: nat)
    requires cb > 0
  {
    && TableOk(v.table)
    && (forall id :: id in v.files ==> FileOk(v.table.entries, v.files[id], cb))
    && (forall id, other :: id in v.files && other in v.files && id != other ==>
          Apart(v.files[id].clusters, v.files[other].clusters))
  }

  ghost predicate CanResize(t: Table, f: File, diff: int, cb: nat)
    requires cb > 0 && (forall i :: 0 <= i < |f.clusters| ==> f.clusters[i] < |t.entries|)
  {
    if diff > 0 then t.nxtFree + (Clusters(f.size + diff, cb) - |f.clusters|) <= |t.entries|
    else if diff < 0 && f.size + diff > 0 then
      |f.clusters| <= Clusters(f.size + diff, cb) || t.entries[f.clusters[|f.clusters| - 1]] == END
    else true
  }

  /** Nothing happens when a file would shrink to nothing or below. */
  ghost function Resize(t: Table, f: File, diff: int, cb: nat): (Table, File)
    requires cb > 0 && TableOk(t) && FileOk(t.entries, f, cb) && CanResize(t, f, diff, cb)
  {
    if diff > 0 then
      var n := Clusters(f.size + diff, cb);
      ClustersMonotone(f.size, f.size + diff, cb);
      RoomFor(t, n - |f.clusters|);
      var (u, d) := Grow(t, f.clusters, n);
      (u, File(d, f.size + diff))
    else if diff < 0 && f.size + diff > 0 then
      var n := Clusters(f.size + diff, cb);
      ClustersMonotone(f.size + diff, f.size, cb);
      var (u, d) := Shrink(t, f.clusters, n);
      (u, File(d, f.size + diff))
    else (t, f)
  }

  /** Free clusters below the mark: no file will ever be given them. */
  function Stranded(t: Table): int {
    t.freeCount - (|t.entries| - t.nxtFree)
  }

  lemma ResizeCorrect(t: Table, f: File, diff: int, cb: nat)
    requires cb > 0 && TableOk(t) && FileOk(t.entries, f, cb) && CanResize(t, f, diff, cb)
    ensures var (u, g) := Resize(t, f, diff, cb);
      && TableOk(u) && FileOk(u.entries, g, cb) && OthersKept(t, f.clusters, u, g.clusters)
      && g.size == (if f.size + diff > 0 then f.size + diff else f.size)
      && g.clusters[0] == f.clusters[0] && (f.clusters <= g.clusters || g.clusters <= f.clusters)
      && Stranded(t) <= Stranded(u) && StillFree(t, u)
  {
    if diff > 0 {
      ClustersMonotone(f.size, f.size + diff, cb);
      GrowCorrect(t, f.clusters, Clusters(f.size + diff, cb));
      GrowCounts(t, f.clusters, Clusters(f.size + diff, cb));
      GrowReusesNone(t, f.clusters, Clusters(f.size + diff, cb));
    } else if diff < 0 && f.size + diff > 0 {
      ClustersMonotone(f.size + diff, f.size, cb);
      ShrinkCorrect(t, f.clusters, Clusters(f.size + diff, cb));
      ShrinkReusesNone(t, f.clusters, Clusters(f.size + diff, cb));
    }
  }

  lemma {:induction false} GrowCounts(t: Table, c: seq<nat>, n: nat)
    requires c != [] && (|c| < n ==> t.nxtFree + (n - |c|) <= |t.entries| && t.freeCount >= n - |c|)
    requires c[|c| - 1] < |t.entries|
    ensures var (u, d) := Grow(t, c, n); Stranded(u) == Stranded(t)
    decreases n - |c|
  {
    if |c| < n {
      GrowCounts(Alloc(t, Some(c[|c| - 1])), c + [t.nxtFree], n);
    }
  }

  datatype Step = Step(id: nat, diff: int)

  ghost predicate Enabled(v: Volume, step: Step, cb: nat)
    requires cb > 0 && Inv(v, cb)
  {
    step.id in v.files && FileOk(v.table.entries, v.files[step.id], cb) && CanResize(v.table, v.files[step.id], step.diff, cb)
  }

  ghost function Apply(v: Volume, step: Step, cb: nat): Volume
    requires cb > 0 && Inv(v, cb) && Enabled(v, step, cb)
  {
    var (u, g) := Resize(v.table, v.files[step.id], step.diff, cb);
    Volume(u, v.files[step.id := g])
  }

  lemma StepKeeps(v: Volume, step: Step, cb: nat)
    requires cb > 0 && Inv(v, cb) && Enabled(v, step, cb)
    ensures Inv(Apply(v, step, cb), cb)
    ensures Stranded(v.table) <= Stranded(Apply(v, step, cb).table) && StillFree(v.table, Apply(v, step, cb).table)
  {
    var f, w := v.files[step.id], Apply(v, step, cb);
    var r := Resize(v.table, f, step.diff, cb);
    ResizeCorrect(v.table, f, step.diff, cb);
    forall id | id in w.files && id != step.id
      ensures FileOk(w.table.entries, w.files[id], cb)
      ensures Apart(w.files[id].clusters, r.1.clusters) && Apart(r.1.clusters, w.files[id].clusters)
    {
      var d := v.files[id].clusters;
      assert FileOk(v.table.entries, v.files[id], cb) && Apart(d, f.clusters);
      assert IsChain(w.table.entries, d) && Apart(d, r.1.clusters);
    }
  }

  ghost predicate IsRun(v: Volume, steps: seq<Step>, w: Volume, cb: nat)
    requires cb > 0 && Inv(v, cb)
    decreases |steps|
  {
    if steps == [] then v == w
    else
      Enabled(v, steps[0], cb) &&
      (StepKeeps(v, steps[0], cb);
       IsRun(Apply(v, steps[0], cb), steps[1..], w, cb))
  }

  lemma {:induction false} RunKeeps(v: Volume, steps: seq<Step>, w: Volume, cb: nat)
    requires cb > 0 && Inv(v, cb) && IsRun(v, steps, w, cb)
    ensures Inv(w, cb) && Stranded(v.table) <= Stranded(w.table) && StillFree(v.table, w.table)
    decreases |steps|
  {
    if steps != [] {
      StepKeeps(v, steps[0], cb);
      RunKeeps(Apply(v, steps[0], cb), steps[1..], w, cb);
    }
  }

  /**
   After any run of growing and shrinking: each file's clusters are the one chain that
   starts at its first cluster, just enough for its size, with no cluster twice and none
   shared with another file; every entry from the mark up is free; the free count is the
   number of free entries; and a cluster that is free below the mark stays free for good.
   */
  lemma EveryRun(v: Volume, steps: seq<Step>, w: Volume, cb: nat)
    requires cb > 0 && Inv(v, cb) && IsRun(v, steps, w, cb)
    ensures forall id :: id in w.files ==>
      var f := w.files[id];
      && IsChain(w.table.entries, f.clusters)
      && (forall d :: IsChain(w.table.entries, d) && d[0] == f.clusters[0] ==> d == f.clusters)
      && (forall n: nat :: n >= |f.clusters| <==> f.size <= n * cb)
      && (forall i, j :: 0 <= i < j < |f.clusters| ==> f.clusters[i] != f.clusters[j])
    ensures forall id, other :: id in w.files && other in w.files && id != other ==>
      Apart(w.files[id].clusters, w.files[other].clusters)
    ensures forall i :: w.table.nxtFree <= i < |w.table.entries| ==> w.table.entries[i] == 0
    ensures w.table.freeCount == |FreeSet(w.table.entries)|
    ensures forall i :: 2 <= i < v.table.nxtFree && v.table.entries[i] == 0 ==>
      i < |w.table.entries| && w.table.entries[i] == 0
    ensures Stranded(v.table) <= Stranded(w.table)
  {
    RunKeeps(v, steps, w, cb);
    forall id | id in w.files
      ensures var f := w.files[id];
        && IsChain(w.table.entries, f.clusters)
        && (forall d :: IsChain(w.table.entries, d) && d[0] == f.clusters[0] ==> d == f.clusters)
        && (forall n: nat :: n >= |f.clusters| <==> f.size <= n * cb)
        && (forall i, j :: 0 <= i < j < |f.clusters| ==> f.clusters[i] != f.clusters[j])
    {
      FileFacts(w.table.entries, w.files[id], cb);
    }
  }

  lemma FileFacts(entries: seq<nat>, f: File, cb: nat)
    requires cb > 0 && FileOk(entries, f, cb)
    ensures forall d :: IsChain(entries, d) && d[0] == f.clusters[0] ==> d == f.clusters
    ensures forall n: nat :: n >= |f.clusters| <==> f.size <= n * cb
    ensures forall i, j :: 0 <= i < j < |f.clusters| ==> f.clusters[i] != f.clusters[j]
  {
    forall d | IsChain(entries, d) && d[0] == f.clusters[0] ensures d == f.clusters {
      OneChain(entries, d, f.clusters);
    }
    forall n: nat ensures n >= |f.clusters| <==> f.size <= n * cb {
      ClustersLeast(f.size, cb, n);
    }
    forall i, j | 0 <= i < j < |f.clusters| ensures f.clusters[i] != f.clusters[j] {
      NoRepeats(entries, f.clusters, i, j);
    }
  }

  /** Clusters 2 and 3, the end written as 0x0FFFFFF8: reading accepts it, freeing does not. */
  lemma OtherEndMark()
    ensures var t := Table([0, 0, 3, END8], 0, 4);
      TableOk(t) && IsChain(t.entries, [2, 3]) && !ShrinkPasses(t, [2, 3], 1)
  {
    var t := Table([0, 0, 3, END8], 0, 4);
    assert FreeSet(t.entries) == {};
    assert IsChain(t.entries, [2, 3]);
    ShrinkPassesWhen(t, [2, 3], 1);
  }
}
