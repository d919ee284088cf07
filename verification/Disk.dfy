/**
 A cursor over 512-byte blocks, and the flat byte array it stands for
 (os/src/fs/ext4/disk.rs).
 */
module Disk {

  import opened Options

  const SECTOR_SIZE: nat := 512
  const U64: int := 0x1_0000_0000_0000_0000
  const I64_END: int := 0x8000_0000_0000_0000

  const SEEK_CUR := 1
  const SEEK_END := 2

  function AsU64(v: int): nat
    requires -I64_END <= v < I64_END
  {
    if v < 0 then v + U64 else v
  }

  function AsI64(v: nat): int
    requires v < U64
  {
    if v < I64_END then v else v - U64
  }

  lemma CastRoundTrip(v: nat)
    requires v < U64
    ensures -I64_END <= AsI64(v) < I64_END && AsU64(AsI64(v)) == v
  {
  }

  ghost predicate IsBlocks(blocks: seq<seq<nat>>) {
    forall i :: 0 <= i < |blocks| ==> |blocks[i]| == SECTOR_SIZE
  }

  /** All blocks, one after the other. */
  ghost function Flat(blocks: seq<seq<nat>>): seq<nat> {
    if blocks == [] then [] else Flat(blocks[..|blocks| - 1]) + blocks[|blocks| - 1]
  }

  ghost function Splice(flat: seq<nat>, at: nat, data: seq<nat>): seq<nat>
    requires at + |data| <= |flat|
  {
    flat[..at] + data + flat[at + |data|..]
  }

  lemma {:induction false} FlatLength(blocks: seq<seq<nat>>)
    requires IsBlocks(blocks)
    ensures |Flat(blocks)| == SECTOR_SIZE * |blocks|
  {
    if blocks != [] {
      FlatLength(blocks[..|blocks| - 1]);
    }
  }

  /** Block `b` is the stretch of 512 bytes at 512 * `b`. */
  lemma {:induction false} FlatBlock(blocks: seq<seq<nat>>, b: nat)
    requires IsBlocks(blocks) && b < |blocks|
    ensures |Flat(blocks)| == SECTOR_SIZE * |blocks|
    ensures Flat(blocks)[SECTOR_SIZE * b..SECTOR_SIZE * (b + 1)] == blocks[b]
  {
    var init := blocks[..|blocks| - 1];
    FlatLength(blocks);
    FlatLength(init);
    if b < |init| {
      FlatBlock(init, b);
      assert Flat(blocks)[..|Flat(init)|] == Flat(init);
      assert Flat(blocks)[SECTOR_SIZE * b..SECTOR_SIZE * (b + 1)] == Flat(init)[SECTOR_SIZE * b..SECTOR_SIZE * (b + 1)];
    }
  }

  /** Replacing block `b` replaces that stretch and nothing else. */
  lemma {:induction false} FlatUpdate(blocks: seq<seq<nat>>, b: nat, data: seq<nat>)
    requires IsBlocks(blocks) && b < |blocks| && |data| == SECTOR_SIZE
    ensures |Flat(blocks)| == SECTOR_SIZE * |blocks|
    ensures Flat(blocks[b := data]) == Splice(Flat(blocks), SECTOR_SIZE * b, data)
  {
    var init, last := blocks[..|blocks| - 1], blocks[|blocks| - 1];
    var new' := blocks[b := data];
    FlatLength(blocks);
    FlatLength(init);
    if b < |init| {
      FlatUpdate(init, b, data);
      assert new'[..|blocks| - 1] == init[b := data];
      assert Splice(Flat(init), SECTOR_SIZE * b, data) + last == Splice(Flat(init) + last, SECTOR_SIZE * b, data);
    } else {
      assert new'[..|blocks| - 1] == init;
      assert Flat(init) + data == Splice(Flat(init) + last, |Flat(init)|, data);
    }
  }

  /** A part of a block, as the cursor sees it. */
  lemma BlockPart(flat: seq<nat>, block: seq<nat>, base: nat, start: nat, count: nat)
    requires base + |block| <= |flat| && flat[base..base + |block|] == block && start + count <= |block|
    ensures block[start..start + count] == flat[base + start..base + start + count]
  {
    var x, y := block[start..start + count], flat[base + start..base + start + count];
    forall i | 0 <= i < count ensures x[i] == y[i] {
      assert block[start + i] == flat[base..base + |block|][start + i];
    }
  }

  lemma SplicePart(flat: seq<nat>, block: seq<nat>, base: nat, start: nat, data: seq<nat>)
    requires base + |block| <= |flat| && flat[base..base + |block|] == block && start + |data| <= |block|
    ensures Splice(flat, base, Splice(block, start, data)) == Splice(flat, base + start, data)
  {
  }

  /** Writing in two pieces is writing the whole. */
  lemma SpliceSplice(flat: seq<nat>, at: nat, data: seq<nat>, n: nat)
    requires at + |data| <= |flat| && n <= |data|
    ensures Splice(Splice(flat, at, data[..n]), at + n, data[n..]) == Splice(flat, at, data)
  {
  }

  /** What was written at a position is what is read there, and all else is as it was. */
  lemma ReadBack(flat: seq<nat>, at: nat, data: seq<nat>)
    requires at + |data| <= |flat|
    ensures var f := Splice(flat, at, data);
      && |f| == |flat| && f[at..at + |data|] == data
      && f[..at] == flat[..at] && f[at + |data|..] == flat[at + |data|..]
  {
  }

  class Disk {
    var blockId: nat
    var offset: nat
    var blocks: seq<seq<nat>>

    ghost predicate Valid()
      reads this
    {
      offset < SECTOR_SIZE && IsBlocks(blocks)
    }

    constructor (blocks: seq<seq<nat>>)
      requires IsBlocks(blocks)
      ensures Valid() && this.blocks == blocks && Pos() == 0
    {
      blockId, offset := 0, 0;
      this.blocks := blocks;
    }

    function Pos(): nat
      reads this
    {
      blockId * SECTOR_SIZE + offset
    }

    method SetPosition(pos: nat)
      modifies this`blockId, this`offset
      ensures Pos() == pos && offset < SECTOR_SIZE
    {
      blockId := pos / SECTOR_SIZE;
      offset := pos % SECTOR_SIZE;
    }

    method Advance(count: nat)
      requires offset + count <= SECTOR_SIZE
      modifies this`blockId, this`offset
      ensures Pos() == old(Pos()) + count && offset < SECTOR_SIZE
    {
      offset := offset + count;
      if offset >= SECTOR_SIZE {
        blockId := blockId + 1;
        offset := offset - SECTOR_SIZE;
      }
    }

    /** Reads to the end of `buf` or of the current block, whichever comes first, and never nothing. */
    method ReadOne(buf: array<nat>, from: nat) returns (n: nat)
      requires Valid() && from < buf.Length && Pos() + (buf.Length - from) <= |Flat(blocks)|
      modifies this`blockId, this`offset, buf
      ensures Valid() && 0 < n <= buf.Length - from && Pos() == old(Pos()) + n
      ensures old(Pos()) + n <= |Flat(blocks)|
      ensures buf[..] == Splice(old(buf[..]), from, Flat(blocks)[old(Pos())..old(Pos()) + n])
    {
      InBlock(buf.Length - from);
      if offset == 0 && buf.Length - from >= SECTOR_SIZE {
        n := SECTOR_SIZE;
        CopyTo(buf, from, blocks[blockId]);
        blockId := blockId + 1;
      } else {
        n := if buf.Length - from < SECTOR_SIZE - offset then buf.Length - from else SECTOR_SIZE - offset;
        ReadPart(buf, from, n);
        Advance(n);
      }
    }

    method ReadPart(buf: array<nat>, from: nat, count: nat)
      requires Valid() && from + count <= buf.Length && offset + count <= SECTOR_SIZE && blockId < |blocks|
      requires |Flat(blocks)| == SECTOR_SIZE * |blocks|
      requires Flat(blocks)[SECTOR_SIZE * blockId..SECTOR_SIZE * blockId + SECTOR_SIZE] == blocks[blockId]
      modifies buf
      ensures Pos() + count <= |Flat(blocks)|
      ensures buf[..] == Splice(old(buf[..]), from, Flat(blocks)[Pos()..Pos() + count])
    {
      var data := blocks[blockId];
      BlockPart(Flat(blocks), data, SECTOR_SIZE * blockId, offset, count);
      CopyTo(buf, from, data[offset..offset + count]);
    }

    /** Overwrites the part of the current block that `buf` covers. */
    method WriteOne(buf: seq<nat>) returns (n: nat)
      requires Valid() && buf != [] && Pos() + |buf| <= |Flat(blocks)|
      modifies this
      ensures Valid() && 0 < n <= |buf| && Pos() == old(Pos()) + n
      ensures Flat(blocks) == Splice(old(Flat(blocks)), old(Pos()), buf[..n])
    {
      InBlock(|buf|);
      if offset == 0 && |buf| >= SECTOR_SIZE {
        n := SECTOR_SIZE;
        WriteBlock(buf[..n]);
        blockId := blockId + 1;
      } else {
        n := if |buf| < SECTOR_SIZE - offset then |buf| else SECTOR_SIZE - offset;
        WritePart(buf[..n]);
        Advance(n);
      }
    }

    /** Reads the block, replaces a part of it and writes it back. */
    method WritePart(part: seq<nat>)
      requires Valid() && offset + |part| <= SECTOR_SIZE && blockId < |blocks|
      requires |Flat(blocks)| == SECTOR_SIZE * |blocks|
      requires Flat(blocks)[SECTOR_SIZE * blockId..SECTOR_SIZE * blockId + SECTOR_SIZE] == blocks[blockId]
      modifies this`blocks
      ensures Valid() && Flat(blocks) == Splice(old(Flat(blocks)), Pos(), part)
    {
      var data := blocks[blockId];
      SplicePart(Flat(blocks), data, SECTOR_SIZE * blockId, offset, part);
      data := data[..offset] + part + data[offset + |part|..];
      WriteBlock(data);
    }

    method WriteBlock(data: seq<nat>)
      requires Valid() && blockId < |blocks| && |data| == SECTOR_SIZE
      requires |Flat(blocks)| == SECTOR_SIZE * |blocks|
      modifies this`blocks
      ensures Valid() && Flat(blocks) == Splice(old(Flat(blocks)), SECTOR_SIZE * blockId, data)
    {
      FlatUpdate(blocks, blockId, data);
      blocks := blocks[blockId := data];
    }

    /** The byte at the cursor is in block `blockId`, which is there. */
    lemma InBlock(len: nat)
      requires Valid() && len > 0 && Pos() + len <= |Flat(blocks)|
      ensures blockId < |blocks| && |Flat(blocks)| == SECTOR_SIZE * |blocks|
      ensures SECTOR_SIZE * blockId + SECTOR_SIZE <= |Flat(blocks)|
      ensures Flat(blocks)[SECTOR_SIZE * blockId..SECTOR_SIZE * blockId + SECTOR_SIZE] == blocks[blockId]
    {
      FlatLength(blocks);
      FlatBlock(blocks, blockId);
    }

    /** Fills `buf` with the bytes at the cursor and moves past them; it never stops short. */
    method Read(buf: array<nat>) returns (n: nat)
      requires Valid() && Pos() + buf.Length <= |Flat(blocks)|
      modifies this`blockId, this`offset, buf
      ensures Valid() && n == buf.Length && Pos() == old(Pos()) + n
      ensures buf[..] == Flat(blocks)[old(Pos())..old(Pos()) + n]
    {
      n := 0;
      ghost var flat, at := Flat(blocks), Pos();
      while n < buf.Length
        invariant 0 <= n <= buf.Length && Valid() && Pos() == at + n
        invariant buf[..n] == flat[at..at + n]
      {
        ghost var before := buf[..];
        var k := ReadOne(buf, n);
        Filled(before, buf[..], flat, at, n, k);
        n := n + k;
      }
    }

    /** Replaces the bytes at the cursor by `buf` and moves past them; it never stops short. */
    method Write(buf: seq<nat>) returns (n: nat)
      requires Valid() && Pos() + |buf| <= |Flat(blocks)|
      modifies this
      ensures Valid() && n == |buf| && Pos() == old(Pos()) + n
      ensures Flat(blocks) == Splice(old(Flat(blocks)), old(Pos()), buf)
    {
      n := 0;
      ghost var flat, at := Flat(blocks), Pos();
      while n < |buf|
        invariant 0 <= n <= |buf| && Valid() && Pos() == at + n
        invariant Flat(blocks) == Splice(flat, at, buf[..n])
        decreases |buf| - n
      {
        var k := WriteOne(buf[n..]);
        Extended(flat, at, buf, n, k);
        n := n + k;
      }
      assert buf[..n] == buf;
    }

    /** `None` is the error return: a position below zero or past 64 bits. */
    method Seek(off: int, whence: int) returns (r: Option<int>)
      requires -I64_END <= off < I64_END && Pos() < U64 && SECTOR_SIZE * |blocks| < U64
      modifies this`blockId, this`offset
      ensures var target := if whence == SEEK_CUR then old(Pos()) + off
                            else if whence == SEEK_END then SECTOR_SIZE * |blocks| + off
                            else AsU64(off);
        if 0 <= target < U64 then r == Some(AsI64(target)) && Pos() == target && offset < SECTOR_SIZE
        else r == None && Pos() == old(Pos()) && offset == old(offset)
    {
      var size := SECTOR_SIZE * |blocks|;
      var newPos := off;
      if whence == SEEK_CUR || whence == SEEK_END {
        var v := (if whence == SEEK_CUR then Pos() else size) + off;
        if v < 0 || v >= U64 {
          return None;
        }
        CastRoundTrip(v);
        newPos := AsI64(v);
      }
      SetPosition(AsU64(newPos));
      r := Some(newPos);
    }
  }

  /** Write, seek back and read: the data comes back and no other byte of the disk has changed. */
  method WriteSeekRead(disk: Disk, data: seq<nat>, buf: array<nat>)
    requires disk.Valid() && disk.Pos() + |data| <= |Flat(disk.blocks)| < U64 && buf.Length == |data| < I64_END
    modifies disk, buf
    ensures disk.Valid() && buf[..] == data && disk.Pos() == old(disk.Pos()) + |data|
    ensures Flat(disk.blocks) == Splice(old(Flat(disk.blocks)), old(disk.Pos()), data)
  {
    FlatLength(disk.blocks);
    var n := disk.Write(data);
    FlatLength(disk.blocks);
    var r := disk.Seek(-(n as int), SEEK_CUR);
    ReadBack(old(Flat(disk.blocks)), old(disk.Pos()), data);
    var m := disk.Read(buf);
  }

  method CopyTo(buf: array<nat>, from: nat, data: seq<nat>)
    requires from + |data| <= buf.Length
    modifies buf
    ensures buf[..] == Splice(old(buf[..]), from, data)
  {
    forall i | 0 <= i < |data| {
      buf[from + i] := data[i];
    }
  }

  lemma Filled(before: seq<nat>, after: seq<nat>, flat: seq<nat>, at: nat, n: nat, k: nat)
    requires n + k <= |before| && at + n + k <= |flat| && before[..n] == flat[at..at + n]
    requires after == Splice(before, n, flat[at + n..at + n + k])
    ensures |after| == |before| && after[..n + k] == flat[at..at + n + k]
  {
  }

  lemma Extended(flat: seq<nat>, at: nat, buf: seq<nat>, n: nat, k: nat)
    requires n + k <= |buf| && at + |buf| <= |flat|
    ensures Splice(Splice(flat, at, buf[..n]), at + n, buf[n..][..k]) == Splice(flat, at, buf[..n + k])
  {
    assert buf[n..][..k] == buf[..n + k][n..] && buf[..n + k][..n] == buf[..n];
    SpliceSplice(flat, at, buf[..n + k], n);
  }
}
