/**
 The allocation table as it is updated in place, and a file of clusters over it
 (os/src/fs/fat32/fat.rs, os/src/fs/fat32/fat_file.rs, os/src/fs/fat32/fsinfo.rs).
 */
module FatFiles {

  import opened Options
  import opened Fat

  class FatTable {
    var entries: seq<nat>
    var freeCount: nat
    var nxtFree: nat

    ghost function Value(): Table
      reads this
    {
      Table(entries, freeCount, nxtFree)
    }

    /** Always the cluster at the mark: nothing looks for one that was given back. */
    method AllocCluster(prev: Option<nat>) returns (id: nat)
      requires nxtFree < |entries| && freeCount > 0
      requires prev.Some? ==> prev.value < |entries| && StatusOf(entries[prev.value]) == EndOfFile
      modifies this
      ensures id == old(nxtFree) && Value() == Alloc(old(Value()), prev)
    {
      id := nxtFree;
      freeCount := freeCount - 1;
      nxtFree := nxtFree + 1;
      if prev.Some? {
        entries := entries[prev.value := id];
      }
      entries := entries[id := END];
    }

    method FreeCluster(id: nat, prev: Option<nat>)
      requires id < |entries| && entries[id] == END
      requires prev.Some? ==> prev.value < |entries| && prev.value != id && entries[prev.value] == id
      modifies this
      ensures Value() == Release(old(Value()), id, prev)
    {
      if prev.Some? {
        entries := entries[prev.value := END];
      }
      freeCount := freeCount + 1;
      entries := entries[id := 0];
    }

    /** Follows the entries from `cluster`; it comes back whenever they lead to an end at all. */
    method FindAllCluster(cluster: nat, ghost chain: seq<nat>) returns (clusters: seq<nat>)
      requires IsChain(entries, chain) && chain[0] == cluster
      ensures clusters == chain
    {
      clusters := [cluster];
      var at := cluster;
      ghost var n := 0;
      while StatusOf(entries[at]).Next?
        invariant 0 <= n < |chain| && at == chain[n] && clusters == chain[..n + 1]
        invariant n < |chain| - 1 ==> StatusOf(entries[chain[n]]) == Next(chain[n + 1])
        decreases |chain| - n
      {
        at := StatusOf(entries[at]).cluster;
        clusters := clusters + [at];
        n := n + 1;
      }
    }
  }

  /** Where the data of the clusters is, in sectors of 512 bytes. */
  datatype Layout = Layout(sector: nat, size: nat, numFat: nat, secPerClus: nat)

  function ClusterToSector(l: Layout, cluster: nat): nat
    requires cluster >= 2
  {
    (cluster - 2) * l.secPerClus + l.sector + l.size * l.numFat
  }

  /** Byte `i` is in a cluster of the file; `cb` is the size of one. */
  ghost predicate InFile(clusters: seq<nat>, cb: nat, i: nat) {
    cb > 0 && i / cb < |clusters| && clusters[i / cb] >= 2
  }

  /** Where on the device byte `i` of a file is, if cluster 2 begins at `start`. */
  ghost function Place(clusters: seq<nat>, start: nat, cb: nat, i: nat): nat
    requires InFile(clusters, cb, i)
  {
    start + (clusters[i / cb] - 2) * cb + i % cb
  }

  /** The data begins right after the FATs. */
  function DataStart(l: Layout): nat {
    (l.sector + l.size * l.numFat) * SECTOR_SIZE
  }

  lemma DigitsEqual(a: nat, x: nat, b: nat, y: nat, cb: nat)
    requires x < cb && y < cb && a * cb + x == b * cb + y
    ensures a == b && x == y
  {
    if a < b {
      NextBelow(a, b, cb);
    } else if b < a {
      NextBelow(b, a, cb);
    }
  }

  /** Two bytes in one place are the same byte of the same cluster. */
  lemma PlaceInjective(c: seq<nat>, i: nat, d: seq<nat>, j: nat, start: nat, cb: nat)
    requires InFile(c, cb, i) && InFile(d, cb, j) && Place(c, start, cb, i) == Place(d, start, cb, j)
    ensures c[i / cb] == d[j / cb] && i % cb == j % cb
  {
    DigitsEqual(c[i / cb] - 2, i % cb, d[j / cb] - 2, j % cb, cb);
  }

  lemma SameDigits(i: nat, j: nat, cb: nat)
    requires cb > 0 && i / cb == j / cb && i % cb == j % cb
    ensures i == j
  {
    DivMod(i, cb);
    DivMod(j, cb);
  }

  lemma SameClusterSameByte(entries: seq<nat>, c: seq<nat>, i: nat, d: seq<nat>, j: nat, cb: nat)
    requires IsChain(entries, c) && InFile(c, cb, i) && InFile(d, cb, j) && c[i / cb] == d[j / cb] && i % cb == j % cb
    ensures !Apart(c, d) && (c == d ==> i == j)
  {
    if c == d {
      if i / cb < j / cb {
        NoRepeats(entries, c, i / cb, j / cb);
      } else if j / cb < i / cb {
        NoRepeats(entries, c, j / cb, i / cb);
      }
      SameDigits(i, j, cb);
    }
  }

  /** No byte of one file is a byte of another, or another byte of the same one. */
  lemma BytesApart(entries: seq<nat>, c: seq<nat>, i: nat, d: seq<nat>, j: nat, start: nat, cb: nat)
    requires IsChain(entries, c) && IsChain(entries, d) && InFile(c, cb, i) && InFile(d, cb, j)
    requires Apart(c, d) || (c == d && i != j)
    ensures Place(c, start, cb, i) != Place(d, start, cb, j)
  {
    if Place(c, start, cb, i) == Place(d, start, cb, j) {
      PlaceInjective(c, i, d, j, start, cb);
      SameClusterSameByte(entries, c, i, d, j, cb);
      assert false;
    }
  }

  /** A byte of the device. */
  function DeviceByte(sectors: seq<seq<nat>>, p: nat): nat
    requires p / SECTOR_SIZE < |sectors| && p % SECTOR_SIZE < |sectors[p / SECTOR_SIZE]|
  {
    sectors[p / SECTOR_SIZE][p % SECTOR_SIZE]
  }

  /** Sector and cluster of a byte, in one division and in two. */
  lemma SectorInCluster(i: nat, spc: nat)
    requires spc > 0
    ensures i / SECTOR_SIZE / spc == i / (spc * SECTOR_SIZE)
    ensures i % (spc * SECTOR_SIZE) == i / SECTOR_SIZE % spc * SECTOR_SIZE + i % SECTOR_SIZE
  {
    var s := i / SECTOR_SIZE;
    DivMod(s, spc);
    TwoSteps(i, s, i % SECTOR_SIZE, s / spc, s % spc, spc, spc * SECTOR_SIZE);
  }

  lemma DivModIs(x: nat, q: nat, r: nat, m: nat)
    requires r < m && x == q * m + r
    ensures x / m == q && x % m == r
  {
    DivMod(x, m);
    DigitsEqual(q, r, x / m, x % m, m);
  }

  lemma TwoSteps(i: nat, s: nat, t: nat, q: nat, r: nat, spc: nat, cb: nat)
    requires t < SECTOR_SIZE && i == s * SECTOR_SIZE + t && r < spc && s == q * spc + r && cb == spc * SECTOR_SIZE
    ensures i / cb == q && i % cb == r * SECTOR_SIZE + t
  {
    Regroup(q, spc);
    DivModIs(i, q, r * SECTOR_SIZE + t, cb);
  }

  lemma WholeClusters(n: nat, cb: nat)
    requires n > 0 && cb > 0
    ensures n * cb > 0 && Clusters(n * cb, cb) == n
  {
    ClustersLeast(n * cb, cb, n);
    ClustersLeast(n * cb, cb, n - 1);
    assert (n - 1) * cb == n * cb - cb;
  }

  class FatDiskFile {
    const fat: FatTable
    const layout: Layout
    var clusters: seq<nat>
    var size: nat

    /** A file whose directory entry names no cluster yet is empty; any other fills its clusters. */
    constructor (fat: FatTable, layout: Layout, dataCluster: nat, ghost chain: seq<nat>)
      requires layout.secPerClus > 0 && TableOk(fat.Value())
      requires dataCluster != 0 ==> IsChain(fat.entries, chain) && chain[0] == dataCluster
      ensures this.fat == fat && this.layout == layout
      ensures if dataCluster == 0 then Value() == File([], 0) else Valid() && clusters == chain
    {
      this.fat, this.layout := fat, layout;
      clusters, size := [], 0;
      new;
      CalClusterSize(dataCluster, chain);
      if dataCluster != 0 {
        WholeClusters(|clusters|, ClusterBytes());
      }
    }

    ghost function Value(): File
      reads this
    {
      File(clusters, size)
    }

    function ClusterBytes(): nat {
      layout.secPerClus * SECTOR_SIZE
    }

    ghost predicate Valid()
      reads this, fat
    {
      && layout.secPerClus > 0 && ClusterBytes() > 0
      && TableOk(fat.Value()) && FileOk(fat.entries, Value(), ClusterBytes())
    }

    method GrowTo(n: nat)
      requires clusters != [] && TableOk(fat.Value()) && IsChain(fat.entries, clusters)
      requires fat.nxtFree + (n - |clusters|) <= |fat.entries|
      requires |clusters| < n ==> fat.freeCount >= n - |clusters|
      modifies this`clusters, fat
      ensures (fat.Value(), clusters) == Grow(old(fat.Value()), old(clusters), n)
    {
      while |clusters| < n
        invariant clusters != [] && TableOk(fat.Value()) && IsChain(fat.entries, clusters)
        invariant |clusters| < n ==> fat.nxtFree + (n - |clusters|) <= |fat.entries| && fat.freeCount >= n - |clusters|
        invariant Grow(fat.Value(), clusters, n) == Grow(old(fat.Value()), old(clusters), n)
        decreases n - |clusters|
      {
        var end := clusters[|clusters| - 1];
        AllocStep(fat.Value(), clusters);
        var cluster := fat.AllocCluster(Some(end));
        clusters := clusters + [cluster];
      }
    }

    method ShrinkTo(n: nat)
      requires n >= 1 && IsChain(fat.entries, clusters) && ShrinkPasses(fat.Value(), clusters, n)
      modifies this`clusters, fat
      ensures (fat.Value(), clusters) == Shrink(old(fat.Value()), old(clusters), n)
    {
      while |clusters| > n
        invariant IsChain(fat.entries, clusters) && ShrinkPasses(fat.Value(), clusters, n)
        invariant Shrink(fat.Value(), clusters, n) == Shrink(old(fat.Value()), old(clusters), n)
        decreases |clusters|
      {
        ReleaseChain(fat.Value(), clusters);
        FreeLast();
      }
    }

    method FreeLast()
      requires IsChain(fat.entries, clusters) && |clusters| > 1
      requires fat.entries[clusters[|clusters| - 2]] == clusters[|clusters| - 1]
      requires fat.entries[clusters[|clusters| - 1]] == END
      modifies this`clusters, fat
      ensures clusters == old(clusters)[..|old(clusters)| - 1]
      ensures fat.Value() == Release(old(fat.Value()), old(clusters[|clusters| - 1]), Some(old(clusters[|clusters| - 2])))
    {
      var end := clusters[|clusters| - 1];
      NoRepeats(fat.entries, clusters, |clusters| - 2, |clusters| - 1);
      clusters := clusters[..|clusters| - 1];
      var prev := if |clusters| > 0 then Some(clusters[|clusters| - 1]) else None;
      fat.FreeCluster(end, prev);
    }

    /** Reads the clusters back from the table when the directory entry knows the first one. */
    method CalClusterSize(dataCluster: nat, ghost chain: seq<nat>)
      requires dataCluster != 0 ==> IsChain(fat.entries, chain) && chain[0] == dataCluster
      modifies this`clusters, this`size
      ensures clusters == if dataCluster == 0 then old(clusters) else chain
      ensures size == if dataCluster == 0 || old(size) != 0 then old(size) else |chain| * ClusterBytes()
    {
      if dataCluster == 0 {
        return;
      }
      clusters := fat.FindAllCluster(dataCluster, chain);
      if size == 0 {
        size := |clusters| * ClusterBytes();
      }
    }

    method ModifySize(diff: int, dataCluster: nat) returns (newSize: nat)
      requires Valid() && (dataCluster == 0 || dataCluster == clusters[0])
      requires CanResize(fat.Value(), Value(), diff, ClusterBytes())
      modifies this, fat
      ensures Valid() && newSize == size
      ensures (fat.Value(), Value()) == Resize(old(fat.Value()), old(Value()), diff, ClusterBytes())
    {
      ResizeCorrect(fat.Value(), Value(), diff, ClusterBytes());
      if diff < 0 && size + diff > 0 {
        Reduce(size + diff);
      } else if diff > 0 {
        Enlarge(size + diff);
      }
      CalClusterSize(dataCluster, clusters);
      newSize := size;
    }

    method Reduce(newSize: nat)
      requires Valid() && 0 < newSize < size && CanResize(fat.Value(), Value(), newSize - size, ClusterBytes())
      modifies this, fat
      ensures (fat.Value(), Value()) == Resize(old(fat.Value()), old(Value()), newSize - old(size), ClusterBytes())
    {
      var n := (newSize + ClusterBytes() - 1) / ClusterBytes();
      ClustersMonotone(newSize, size, ClusterBytes());
      ShrinkPassesWhen(fat.Value(), clusters, n);
      ShrinkTo(n);
      size := newSize;
    }

    method Enlarge(newSize: nat)
      requires Valid() && newSize > size && CanResize(fat.Value(), Value(), newSize - size, ClusterBytes())
      modifies this, fat
      ensures (fat.Value(), Value()) == Resize(old(fat.Value()), old(Value()), newSize - old(size), ClusterBytes())
    {
      var n := (newSize + ClusterBytes() - 1) / ClusterBytes();
      ClustersMonotone(size, newSize, ClusterBytes());
      RoomFor(fat.Value(), n - |clusters|);
      GrowTo(n);
      size := newSize;
    }

    /** Every sector of every cluster of the file is on the device. */
    ghost predicate OnDevice(sectors: seq<seq<nat>>)
      reads this
    {
      && layout.secPerClus > 0
      && (forall i :: 0 <= i < |clusters| ==>
            clusters[i] >= 2 && ClusterToSector(layout, clusters[i]) + layout.secPerClus <= |sectors|)
      && (forall i :: 0 <= i < |sectors| ==> |sectors[i]| == SECTOR_SIZE)
      && size <= |clusters| * layout.secPerClus * SECTOR_SIZE
    }

    /** The sector that holds sector `s` of the file. */
    ghost function SectorOf(s: nat): nat
      requires layout.secPerClus > 0 && s / layout.secPerClus < |clusters| && clusters[s / layout.secPerClus] >= 2
      reads this
    {
      ClusterToSector(layout, clusters[s / layout.secPerClus]) + s % layout.secPerClus
    }

    lemma SectorThere(sectors: seq<seq<nat>>, s: nat)
      requires OnDevice(sectors) && s < |clusters| * layout.secPerClus
      ensures s / layout.secPerClus < |clusters| && clusters[s / layout.secPerClus] >= 2 && SectorOf(s) < |sectors|
    {
      Quotient(s, layout.secPerClus, |clusters|);
    }

    /** Byte `i` of the file: the clusters' sectors, one after the other. */
    ghost function ByteAt(sectors: seq<seq<nat>>, i: nat): nat
      requires OnDevice(sectors) && i < size
      reads this
    {
      SectorThere(sectors, i / SECTOR_SIZE);
      sectors[SectorOf(i / SECTOR_SIZE)][i % SECTOR_SIZE]
    }

    /** Byte `i` of the file, read from its place on the device, is `x`. */
    ghost predicate AtPlace(sectors: seq<seq<nat>>, i: nat, x: nat)
      reads this
    {
      && InFile(clusters, ClusterBytes(), i)
      && var p := Place(clusters, DataStart(layout), ClusterBytes(), i);
        && p / SECTOR_SIZE < |sectors| && p % SECTOR_SIZE < |sectors[p / SECTOR_SIZE]|
        && x == DeviceByte(sectors, p)
    }

    lemma InClusters(i: nat)
      requires layout.secPerClus > 0 && size <= |clusters| * layout.secPerClus * SECTOR_SIZE && i < size
      ensures i / ClusterBytes() < |clusters|
    {
      Regroup(|clusters|, layout.secPerClus);
      Quotient(i, ClusterBytes(), |clusters|);
    }

    /** It is the byte of the device at its place. */
    lemma ByteInPlace(sectors: seq<seq<nat>>, i: nat)
      requires OnDevice(sectors) && i < size
      ensures AtPlace(sectors, i, ByteAt(sectors, i))
    {
      var s := i / SECTOR_SIZE;
      InClusters(i);
      SectorThere(sectors, s);
      SectorInCluster(i, layout.secPerClus);
      Regroup(clusters[i / ClusterBytes()] - 2, layout.secPerClus);
      assert Place(clusters, DataStart(layout), ClusterBytes(), i) == SectorOf(s) * SECTOR_SIZE + i % SECTOR_SIZE;
    }

    /** `data` holds the bytes from `st` on that lie below `ed` and in the first `done` sectors. */
    ghost predicate Filled(sectors: seq<seq<nat>>, data: seq<nat>, was: seq<nat>, st: nat, ed: nat, done: nat)
      requires OnDevice(sectors) && ed <= size
      reads this
    {
      && |data| == |was|
      && forall k :: 0 <= k < |data| ==>
           data[k] == if st + k < ed && st + k < done * SECTOR_SIZE then ByteAt(sectors, st + k) else was[k]
    }

    method ReadSector(sectors: seq<seq<nat>>, data: array<nat>, ghost was: seq<nat>, st: nat, ed: nat, s: nat, at: nat)
      requires OnDevice(sectors) && st <= ed <= size && ed - st <= data.Length
      requires s < |clusters| * layout.secPerClus && s / layout.secPerClus < |clusters|
      requires clusters[s / layout.secPerClus] >= 2 && at == SectorOf(s) < |sectors|
      requires Filled(sectors, data[..], was, st, ed, s)
      modifies data
      ensures Filled(sectors, data[..], was, st, ed, s + 1)
    {
      var sectorSt := s * SECTOR_SIZE;
      var sectorEd := sectorSt + SECTOR_SIZE;
      if sectorEd <= st || sectorSt >= ed {
        return;
      }
      var curSt := if sectorSt < st then st else sectorSt;
      var curEd := if sectorEd < ed then sectorEd else ed;
      var tmp := sectors[at];
      var i := curSt;
      while i < curEd
        invariant curSt <= i <= curEd
        invariant forall k :: 0 <= k < data.Length ==>
          data[k] == if st + k < ed && (st + k < i || st + k < sectorSt) then ByteAt(sectors, st + k) else was[k]
      {
        data[i - st] := tmp[i - sectorSt];
        i := i + 1;
      }
    }

    method ReadCluster(sectors: seq<seq<nat>>, data: array<nat>, ghost was: seq<nat>, st: nat, ed: nat, c: nat)
      requires OnDevice(sectors) && st <= ed <= size && ed - st <= data.Length && c < |clusters|
      requires Filled(sectors, data[..], was, st, ed, c * layout.secPerClus)
      modifies data
      ensures Filled(sectors, data[..], was, st, ed, (c + 1) * layout.secPerClus)
    {
      var first := ClusterToSector(layout, clusters[c]);
      var j := 0;
      while j < layout.secPerClus
        invariant 0 <= j <= layout.secPerClus
        invariant Filled(sectors, data[..], was, st, ed, c * layout.secPerClus + j)
      {
        SectorIn(c, j, layout.secPerClus, |clusters|);
        ReadSector(sectors, data, was, st, ed, c * layout.secPerClus + j, first + j);
        j := j + 1;
      }
      assert (c + 1) * layout.secPerClus == c * layout.secPerClus + layout.secPerClus;
    }

    /** Copies the bytes of the file at `offset`, as many as there are and fit, and nothing else. */
    method Read(sectors: seq<seq<nat>>, data: array<nat>, offset: nat) returns (n: nat)
      requires OnDevice(sectors) && ClusterBytes() > 0 && |clusters| == Clusters(size, ClusterBytes())
      modifies data
      ensures n == if offset >= size then 0 else if data.Length < size - offset then data.Length else size - offset
      ensures forall k :: 0 <= k < data.Length ==>
        data[k] == if k < n then ByteAt(sectors, offset + k) else old(data[k])
      ensures forall k :: 0 <= k < n ==> AtPlace(sectors, offset + k, data[k])
    {
      var st := if offset < size then offset else size;
      var ed := if offset + data.Length < size then offset + data.Length else size;
      var first, end := Span(st, ed);
      ghost var was := data[..];
      FilledNone(sectors, was, st, ed, first * layout.secPerClus);
      ReadClusters(sectors, data, was, st, ed, first, end);
      n := ed - st;
      FilledAll(sectors, data[..], was, st, ed, end * layout.secPerClus);
      forall k | 0 <= k < n ensures AtPlace(sectors, offset + k, data[k]) {
        ByteInPlace(sectors, offset + k);
      }
    }

    /** The clusters that hold the bytes from `st` up to `ed`. */
    method Span(st: nat, ed: nat) returns (first: nat, end: nat)
      requires layout.secPerClus > 0 && ClusterBytes() > 0 && st <= ed <= size
      requires |clusters| == Clusters(size, ClusterBytes())
      ensures first <= end <= |clusters|
      ensures first * layout.secPerClus * SECTOR_SIZE <= st
      ensures ed <= end * layout.secPerClus * SECTOR_SIZE
    {
      first, end := SpanOf(st, ed, size, ClusterBytes());
      Regroup(first, layout.secPerClus);
      Regroup(end, layout.secPerClus);
    }

    method ReadClusters(sectors: seq<seq<nat>>, data: array<nat>, ghost was: seq<nat>,
                        st: nat, ed: nat, first: nat, end: nat)
      requires OnDevice(sectors) && st <= ed <= size && ed - st <= data.Length && first <= end <= |clusters|
      requires Filled(sectors, data[..], was, st, ed, first * layout.secPerClus)
      modifies data
      ensures Filled(sectors, data[..], was, st, ed, end * layout.secPerClus)
    {
      var c := first;
      while c < end
        invariant first <= c <= end
        invariant Filled(sectors, data[..], was, st, ed, c * layout.secPerClus)
      {
        ReadCluster(sectors, data, was, st, ed, c);
        c := c + 1;
      }
    }

    lemma FilledNone(sectors: seq<seq<nat>>, was: seq<nat>, st: nat, ed: nat, done: nat)
      requires OnDevice(sectors) && ed <= size && done * SECTOR_SIZE <= st
      ensures Filled(sectors, was, was, st, ed, done)
    {
    }

    lemma FilledAll(sectors: seq<seq<nat>>, data: seq<nat>, was: seq<nat>, st: nat, ed: nat, done: nat)
      requires OnDevice(sectors) && ed <= size && ed <= done * SECTOR_SIZE && Filled(sectors, data, was, st, ed, done)
      ensures forall k :: 0 <= k < |data| ==> data[k] == if st + k < ed then ByteAt(sectors, st + k) else was[k]
    {
    }
  }

  lemma DivMod(x: nat, m: nat)
    requires m > 0
    ensures x == x / m * m + x % m
  {
  }

  lemma SectorIn(c: nat, j: nat, spc: nat, count: nat)
    requires j < spc && c < count
    ensures (c * spc + j) / spc == c && (c * spc + j) % spc == j && c * spc + j < count * spc
  {
    var x := c * spc + j;
    assert (c + 1) * spc == c * spc + spc;
    Quotient(x, spc, c);
    Quotient(x, spc, c + 1);
    DivMod(x, spc);
    NextBelow(c, count, spc);
  }

  lemma NextBelow(c: nat, count: nat, spc: nat)
    requires c < count
    ensures c * spc + spc <= count * spc
  {
    assert (count - c) * spc == count * spc - c * spc;
    assert (count - c - 1) * spc >= 0;
    assert (count - c - 1) * spc == (count - c) * spc - spc;
  }

  lemma Regroup(c: nat, spc: nat)
    ensures c * (spc * SECTOR_SIZE) == c * spc * SECTOR_SIZE
  {
  }

  method SpanOf(st: nat, ed: nat, ghost size: nat, cb: nat) returns (first: nat, end: nat)
    requires st <= ed <= size && cb > 0
    ensures first <= end <= Clusters(size, cb) && first * cb <= st && ed <= end * cb
  {
    first := st / cb;
    end := (ed + cb - 1) / cb;
    Covered(st, ed, size, cb);
  }

  lemma Covered(st: nat, ed: nat, size: nat, cb: nat)
    requires st <= ed <= size && cb > 0
    ensures st / cb * cb <= st && ed <= Clusters(ed, cb) * cb
    ensures st / cb <= Clusters(ed, cb) <= Clusters(size, cb)
  {
    Quotient(st, cb, st / cb);
    ClustersLeast(ed, cb, Clusters(ed, cb));
    ClustersMonotone(ed, size, cb);
    Quotient(ed + cb - 1, cb, st / cb);
  }
}
