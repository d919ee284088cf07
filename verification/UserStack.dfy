/**
 The initial user stack: strings, auxiliary vector, environment and argument
 arrays, written downwards from the stack top. The partner is a reader that
 takes the image apart the way a program's start-up code does (the layout of
 section 3.4.1 of the System V AMD64 psABI).
 */
module UserStack {

  type Bytes = seq<nat>

  const AT_NULL: nat := 0
  const AT_PLATFORM: nat := 15
  const AT_RANDOM: nat := 25
  const AT_EXECFN: nat := 31

  datatype Aux = Aux(key: nat, value: nat)

  // ----- words in memory ---------------------------------------------------------

  function Pow256(n: nat): (p: nat)
    ensures p > 0
  {
    if n == 0 then 1 else 256 * Pow256(n - 1)
  }

  /** The `n` low bytes of a number, lowest first. */
  function ToBytes(w: nat, n: nat): (s: Bytes)
    ensures |s| == n
  {
    if n == 0 then [] else [w % 256] + ToBytes(w / 256, n - 1)
  }

  function FromBytes(s: Bytes): nat {
    if s == [] then 0 else s[0] + 256 * FromBytes(s[1..])
  }

  lemma {:induction false} WordRoundTrip(w: nat, n: nat)
    requires w < Pow256(n)
    ensures FromBytes(ToBytes(w, n)) == w
  {
    if n > 0 {
      WordRoundTrip(w / 256, n - 1);
      assert ToBytes(w, n)[1..] == ToBytes(w / 256, n - 1);
    }
  }

  /** A value that fits `usize`. */
  predicate Word(w: nat) {
    w < 0x1_0000_0000_0000_0000
  }

  function Write(m: Bytes, a: nat, s: Bytes): (m': Bytes)
    requires a + |s| <= |m|
    ensures |m'| == |m| && m'[a..a + |s|] == s
    ensures SameFrom(m, m', a + |s|) && SameBelow(m, m', a)
  {
    m[..a] + s + m[a + |s|..]
  }

  function ReadWord(m: Bytes, a: nat): nat
    requires a + 8 <= |m|
  {
    FromBytes(m[a..a + 8])
  }

  /** Memory is the same from `lo` on, or below `hi`. */
  ghost predicate SameFrom(m: Bytes, m': Bytes, lo: nat) {
    |m'| == |m| && lo <= |m| && forall i :: lo <= i < |m| ==> m'[i] == m[i]
  }

  ghost predicate SameBelow(m: Bytes, m': Bytes, hi: nat) {
    |m'| == |m| && hi <= |m| && forall i :: 0 <= i < hi ==> m'[i] == m[i]
  }

  // ----- reading the stack back -----------------------------------------------------

  /** The NUL-terminated string at `p`. */
  function ReadCString(m: Bytes, p: nat): Bytes
    decreases |m| - p
  {
    if p >= |m| || m[p] == 0 then [] else [m[p]] + ReadCString(m, p + 1)
  }

  /** A NULL-terminated array of string pointers. */
  function ReadStrings(m: Bytes, p: nat): seq<Bytes>
    decreases |m| - p
  {
    if p + 8 > |m| || ReadWord(m, p) == 0 then []
    else [ReadCString(m, ReadWord(m, p))] + ReadStrings(m, p + 8)
  }

  /** The auxiliary vector up to and including its AT_NULL entry. */
  function ReadAuxv(m: Bytes, p: nat): seq<Aux>
    decreases |m| - p
  {
    if p + 16 > |m| then []
    else
      var e := Aux(ReadWord(m, p), ReadWord(m, p + 8));
      if e.key == AT_NULL then [e] else [e] + ReadAuxv(m, p + 16)
  }

  // ----- what lies where ------------------------------------------------------------

  predicate NulFree(s: Bytes) {
    forall i :: 0 <= i < |s| ==> s[i] != 0
  }

  ghost predicate StringAt(m: Bytes, p: nat, s: Bytes) {
    p + |s| + 1 <= |m| && m[p..p + |s|] == s && m[p + |s|] == 0
  }

  ghost predicate StringsAt(m: Bytes, addrs: seq<nat>, strs: seq<Bytes>, lo: nat, hi: nat) {
    && |addrs| == |strs| && hi <= |m|
    && forall i :: 0 <= i < |strs| ==> lo <= addrs[i] && addrs[i] + |strs[i]| + 1 <= hi && StringAt(m, addrs[i], strs[i])
  }

  /** The words `ws` stored from `p` on. */
  ghost predicate WordsAt(m: Bytes, p: nat, ws: seq<nat>) {
    && p + 8 * |ws| <= |m|
    && forall i :: 0 <= i < |ws| ==> ReadWord(m, p + 8 * i) == ws[i]
  }

  lemma WordsTail(m: Bytes, p: nat, ws: seq<nat>)
    requires WordsAt(m, p, ws) && ws != []
    ensures ReadWord(m, p) == ws[0] && WordsAt(m, p + 8, ws[1..])
  {
    assert ReadWord(m, p + 8 * 0) == ws[0];
    forall i | 0 <= i < |ws[1..]|
      ensures ReadWord(m, p + 8 + 8 * i) == ws[1..][i]
    {
      assert ReadWord(m, p + 8 * (i + 1)) == ws[i + 1];
    }
  }

  lemma {:induction false} ReadCStringAt(m: Bytes, p: nat, s: Bytes)
    requires StringAt(m, p, s) && NulFree(s)
    ensures ReadCString(m, p) == s
    decreases |s|
  {
    if s != [] {
      assert m[p] == m[p..p + |s|][0] == s[0];
      assert m[p + 1..p + |s|] == m[p..p + |s|][1..];
      ReadCStringAt(m, p + 1, s[1..]);
    }
  }

  /** A pointer array with its terminator reads back as the strings. */
  lemma {:induction false} ReadStringsAt(m: Bytes, p: nat, addrs: seq<nat>, strs: seq<Bytes>, lo: nat, hi: nat)
    requires StringsAt(m, addrs, strs, lo, hi) && 0 < lo
    requires forall i :: 0 <= i < |strs| ==> NulFree(strs[i])
    requires WordsAt(m, p, addrs + [0])
    ensures ReadStrings(m, p) == strs
    decreases |strs|
  {
    WordsTail(m, p, addrs + [0]);
    if strs != [] {
      ReadCStringAt(m, addrs[0], strs[0]);
      assert (addrs + [0])[1..] == addrs[1..] + [0];
      ReadStringsAt(m, p + 8, addrs[1..], strs[1..], lo, hi);
    }
  }

  function AuxWords(auxv: seq<Aux>): (ws: seq<nat>)
    ensures |ws| == 2 * |auxv|
  {
    if auxv == [] then [] else [auxv[0].key, auxv[0].value] + AuxWords(auxv[1..])
  }

  ghost predicate NullTerminated(auxv: seq<Aux>) {
    && auxv != [] && auxv[|auxv| - 1].key == AT_NULL
    && forall i :: 0 <= i < |auxv| - 1 ==> auxv[i].key != AT_NULL
  }

  lemma {:induction false} ReadAuxvAt(m: Bytes, p: nat, auxv: seq<Aux>)
    requires NullTerminated(auxv) && WordsAt(m, p, AuxWords(auxv))
    ensures ReadAuxv(m, p) == auxv
    decreases |auxv|
  {
    var ws := AuxWords(auxv);
    WordsTail(m, p, ws);
    WordsTail(m, p + 8, ws[1..]);
    if |auxv| > 1 {
      assert ws[1..][1..] == AuxWords(auxv[1..]);
      ReadAuxvAt(m, p + 16, auxv[1..]);
    }
  }

  // ----- later writes do not disturb earlier ones ------------------------------------

  lemma StringKept(m: Bytes, m': Bytes, lo: nat, p: nat, s: Bytes)
    requires SameFrom(m, m', lo) && lo <= p && StringAt(m, p, s)
    ensures StringAt(m', p, s)
  {
  }

  lemma StringsKept(m: Bytes, m': Bytes, lo: nat, addrs: seq<nat>, strs: seq<Bytes>, from: nat, hi: nat)
    requires SameFrom(m, m', lo) && lo <= from && StringsAt(m, addrs, strs, from, hi)
    ensures StringsAt(m', addrs, strs, from, hi)
  {
    forall i | 0 <= i < |strs|
      ensures StringAt(m', addrs[i], strs[i])
    {
      StringKept(m, m', lo, addrs[i], strs[i]);
    }
  }

  lemma WordKept(m: Bytes, m': Bytes, lo: nat, p: nat)
    requires SameFrom(m, m', lo) && lo <= p && p + 8 <= |m|
    ensures ReadWord(m', p) == ReadWord(m, p)
  {
    assert m'[p..p + 8] == m[p..p + 8];
  }

  lemma WordsKept(m: Bytes, m': Bytes, lo: nat, p: nat, ws: seq<nat>)
    requires SameFrom(m, m', lo) && lo <= p && WordsAt(m, p, ws)
    ensures WordsAt(m', p, ws)
  {
    forall i | 0 <= i < |ws|
      ensures ReadWord(m', p + 8 * i) == ws[i]
    {
      WordKept(m, m', lo, p + 8 * i);
    }
  }

  // ----- building it ------------------------------------------------------------------

  function StringsSize(strs: seq<Bytes>): nat {
    if strs == [] then 0 else StringsSize(strs[..|strs| - 1]) + |strs[|strs| - 1]| + 1
  }

  /** `sp &= !15`. */
  function Align16(sp: nat): (r: nat)
    ensures r % 16 == 0 && r <= sp < r + 16
  {
    sp / 16 * 16
  }

  class Memory {
    var bytes: Bytes

    constructor (bytes: Bytes)
      ensures this.bytes == bytes
    {
      this.bytes := bytes;
    }

    /** `*(p as *mut usize) = w`. */
    method PutWord(p: nat, w: nat)
      requires p + 8 <= |bytes| && Word(w)
      modifies this
      ensures |bytes| == |old(bytes)| && ReadWord(bytes, p) == w
      ensures SameFrom(old(bytes), bytes, p + 8) && SameBelow(old(bytes), bytes, p)
    {
      assert Pow256(8) == 0x1_0000_0000_0000_0000;
      WordRoundTrip(w, 8);
      bytes := Write(bytes, p, ToBytes(w, 8));
    }

    /** A loop that stores words upwards from `p`. */
    method PutWords(p: nat, ws: seq<nat>)
      requires p + 8 * |ws| <= |bytes| && forall i :: 0 <= i < |ws| ==> Word(ws[i])
      modifies this
      ensures WordsAt(bytes, p, ws)
      ensures SameFrom(old(bytes), bytes, p + 8 * |ws|) && SameBelow(old(bytes), bytes, p)
    {
      var i := 0;
      while i < |ws|
        invariant 0 <= i <= |ws| && |bytes| == |old(bytes)|
        invariant WordsAt(bytes, p, ws[..i])
        invariant SameFrom(old(bytes), bytes, p + 8 * i) && SameBelow(old(bytes), bytes, p)
      {
        ghost var m := bytes;
        PutWord(p + 8 * i, ws[i]);
        WordsExtend(m, bytes, p, ws, i);
        i := i + 1;
      }
      assert ws[..i] == ws;
    }

    /** One string and its NUL, below `sp`. */
    method PushString(s: Bytes, sp: nat) returns (p: nat)
      requires |s| + 1 <= sp <= |bytes|
      modifies this
      ensures p == sp - 1 - |s| && |bytes| == |old(bytes)|
      ensures StringAt(bytes, p, s) && SameFrom(old(bytes), bytes, sp) && SameBelow(old(bytes), bytes, p)
    {
      var endPtr := sp - 1;
      p := endPtr - |s|;
      bytes := Write(bytes, p, s);
      bytes := Write(bytes, endPtr, [0]);
      StringPushed(old(bytes), bytes, p, s);
    }

    /** The string loops: each string below the last. */
    method PushStrings(strs: seq<Bytes>, top: nat) returns (sp: nat, addrs: seq<nat>)
      requires StringsSize(strs) <= top <= |bytes|
      modifies this
      ensures sp == top - StringsSize(strs)
      ensures StringsAt(bytes, addrs, strs, sp, top)
      ensures SameFrom(old(bytes), bytes, top) && SameBelow(old(bytes), bytes, sp)
    {
      sp, addrs := top, [];
      var i := 0;
      SizesMono(strs);
      while i < |strs|
        invariant 0 <= i <= |strs| && |bytes| == |old(bytes)|
        invariant StringsSize(strs[..i]) <= top && sp == top - StringsSize(strs[..i])
        invariant StringsAt(bytes, addrs, strs[..i], sp, top)
        invariant SameFrom(old(bytes), bytes, top) && SameBelow(old(bytes), bytes, sp)
      {
        SizeStep(strs, i);
        ghost var m := bytes;
        var p := PushString(strs[i], sp);
        PushedKeeps(old(bytes), m, bytes, addrs, strs, i, sp, p, top);
        addrs := addrs + [p];
        sp := p;
        i := i + 1;
      }
      assert strs[..i] == strs;
    }
  }

  lemma PushedKeeps(m0: Bytes, m: Bytes, m': Bytes, addrs: seq<nat>, strs: seq<Bytes>, i: nat, sp: nat, p: nat, top: nat)
    requires i < |strs| && p <= sp <= top && p + |strs[i]| + 1 == sp
    requires StringsAt(m, addrs, strs[..i], sp, top)
    requires SameFrom(m0, m, top) && SameBelow(m0, m, sp)
    requires StringAt(m', p, strs[i]) && SameFrom(m, m', sp) && SameBelow(m, m', p)
    ensures StringsAt(m', addrs + [p], strs[..i + 1], p, top)
    ensures SameFrom(m0, m', top) && SameBelow(m0, m', p)
  {
    StringsKept(m, m', sp, addrs, strs[..i], sp, top);
    assert strs[..i + 1] == strs[..i] + [strs[i]];
  }

  lemma WordsExtend(m: Bytes, m': Bytes, p: nat, ws: seq<nat>, i: nat)
    requires i < |ws| && p + 8 * |ws| <= |m| && WordsAt(m, p, ws[..i])
    requires SameBelow(m, m', p + 8 * i) && ReadWord(m', p + 8 * i) == ws[i]
    ensures WordsAt(m', p, ws[..i + 1])
  {
    forall j | 0 <= j < i + 1
      ensures ReadWord(m', p + 8 * j) == ws[..i + 1][j]
    {
      if j < i {
        assert m'[p + 8 * j..p + 8 * j + 8] == m[p + 8 * j..p + 8 * j + 8];
        assert ReadWord(m, p + 8 * j) == ws[..i][j];
      }
    }
  }

  lemma StringPushed(m: Bytes, m': Bytes, p: nat, s: Bytes)
    requires p + |s| + 1 <= |m|
    requires m' == Write(Write(m, p, s), p + |s|, [0])
    ensures StringAt(m', p, s) && SameFrom(m, m', p + |s| + 1) && SameBelow(m, m', p)
  {
    var m1 := Write(m, p, s);
    assert m'[p..p + |s|] == m1[p..p + |s|];
    assert m'[p + |s|] == m'[p + |s|..p + |s| + 1][0];
  }

  lemma SizeStep(strs: seq<Bytes>, i: nat)
    requires i < |strs|
    ensures StringsSize(strs[..i + 1]) == StringsSize(strs[..i]) + |strs[i]| + 1
    ensures StringsSize(strs[..i + 1]) <= StringsSize(strs)
  {
    assert strs[..i + 1][..i] == strs[..i];
    SizesMono(strs);
  }

  lemma {:induction false} SizesMono(strs: seq<Bytes>)
    ensures forall i :: 0 <= i <= |strs| ==> StringsSize(strs[..i]) <= StringsSize(strs)
  {
    if strs != [] {
      var init := strs[..|strs| - 1];
      SizesMono(init);
      forall i | 0 <= i <= |strs|
        ensures StringsSize(strs[..i]) <= StringsSize(strs)
      {
        if i < |strs| {
          assert init[..i] == strs[..i];
        } else {
          assert strs[..i] == strs;
        }
      }
    }
  }

  /** `b"riscv64\0"` without its NUL. */
  function Platform(): (s: Bytes)
    ensures |s| == 7 && NulFree(s)
  {
    [0x72, 0x69, 0x73, 0x63, 0x76, 0x36, 0x34]
  }

  datatype Layout = Layout(argc: nat, argv: nat, envp: nat, auxv: nat)

  /** Where the strings and the 16 random bytes went. */
  datatype Placed = Placed(envp: seq<nat>, argv: seq<nat>, platform: nat, random: nat)

  ghost predicate PlacedAt(m: Bytes, pl: Placed, envs: seq<Bytes>, args: seq<Bytes>, random: Bytes, lo: nat, hi: nat) {
    && StringsAt(m, pl.envp, envs, lo, hi)
    && StringsAt(m, pl.argv, args, lo, hi)
    && lo <= pl.platform < hi && StringAt(m, pl.platform, Platform())
    && lo <= pl.random && pl.random + |random| <= hi && hi <= |m| && m[pl.random..pl.random + |random|] == random
  }

  lemma PlacedKept(m: Bytes, m': Bytes, lo: nat, pl: Placed, envs: seq<Bytes>, args: seq<Bytes>, random: Bytes, from: nat, hi: nat)
    requires SameFrom(m, m', lo) && lo <= from && PlacedAt(m, pl, envs, args, random, from, hi)
    ensures PlacedAt(m', pl, envs, args, random, from, hi)
  {
    StringsKept(m, m', lo, pl.envp, envs, from, hi);
    StringsKept(m, m', lo, pl.argv, args, from, hi);
    StringKept(m, m', lo, pl.platform, Platform());
    SliceKept(m, m', lo, pl.random, random);
  }

  lemma SliceKept(m: Bytes, m': Bytes, lo: nat, p: nat, s: Bytes)
    requires SameFrom(m, m', lo) && lo <= p && p + |s| <= |m| && m[p..p + |s|] == s
    ensures m'[p..p + |s|] == s
  {
  }

  lemma StringsWiden(m: Bytes, addrs: seq<nat>, strs: seq<Bytes>, lo: nat, hi: nat, lo': nat, hi': nat)
    requires StringsAt(m, addrs, strs, lo, hi) && lo' <= lo && hi <= hi' <= |m|
    ensures StringsAt(m, addrs, strs, lo', hi')
  {
  }

  /** Bytes that `build_stack` may need, alignment included. */
  function Room(envs: seq<Bytes>, args: seq<Bytes>, auxv: seq<Aux>): nat {
    StringsSize(envs) + StringsSize(args) + 69 + 16 * (|auxv| + 4) + 8 * (|envs| + |args| + 3)
  }

  lemma StaysAligned(top: nat, n: nat)
    requires top % 8 == 0 && 8 * n <= top
    ensures (top - 8 * n) % 8 == 0
  {
  }

  /** The words below a 16-byte boundary end on another one exactly when they are even in number. */
  lemma SixteenAligned(top: nat, auxs: nat, words: nat, sp: nat)
    requires top % 16 == 0 && top == sp + 8 * (words + 3) + 16 * auxs
    ensures sp % 16 == 0 <==> words % 2 == 1
  {
    var h := words / 2;
    assert words == 2 * h + words % 2;
    assert sp == 16 * (top / 16 - auxs - h - 1) - 8 * (words % 2 + 1);
  }

  /** The value of the entry with this key among those from index `from` on. */
  function Find(auxv: seq<Aux>, key: nat, from: nat): nat
    decreases |auxv| - from
  {
    if from >= |auxv| then 0 else if auxv[from].key == key then auxv[from].value else Find(auxv, key, from + 1)
  }

  /** Entries without the key do not matter to a search. */
  lemma {:induction false} FindSkips(auxv: seq<Aux>, key: nat, from: nat, to: nat)
    requires from <= to <= |auxv| && forall i :: from <= i < to ==> auxv[i].key != key
    ensures Find(auxv, key, from) == Find(auxv, key, to)
    decreases |auxv| - from
  {
    if from < to {
      FindSkips(auxv, key, from + 1, to);
    }
  }

  /** None of the entries that `build_stack` adds is there yet. */
  ghost predicate LacksAdded(auxv: seq<Aux>) {
    forall i :: 0 <= i < |auxv| ==>
      auxv[i].key != AT_PLATFORM && auxv[i].key != AT_RANDOM && auxv[i].key != AT_EXECFN
  }

  lemma WordsAppend(m: Bytes, p: nat, ws: seq<nat>, w: nat)
    requires WordsAt(m, p, ws) && p + 8 * |ws| + 8 <= |m| && ReadWord(m, p + 8 * |ws|) == w
    ensures WordsAt(m, p, ws + [w])
  {
  }

  lemma {:induction false} AuxWordsFit(auxv: seq<Aux>)
    requires forall i :: 0 <= i < |auxv| ==> Word(auxv[i].key) && Word(auxv[i].value)
    ensures forall i :: 0 <= i < |AuxWords(auxv)| ==> Word(AuxWords(auxv)[i])
  {
    if auxv != [] {
      AuxWordsFit(auxv[1..]);
    }
  }

  /** The entries `build_stack` adds. */
  function FullAuxv(auxv: seq<Aux>, platform: nat, random: nat, execfn: nat): seq<Aux> {
    auxv + [Aux(AT_PLATFORM, platform), Aux(AT_RANDOM, random), Aux(AT_EXECFN, execfn), Aux(AT_NULL, 0)]
  }

  lemma FullAuxvOk(auxv: seq<Aux>, platform: nat, random: nat, execfn: nat, top: nat)
    requires forall i :: 0 <= i < |auxv| ==> Word(auxv[i].key) && Word(auxv[i].value) && auxv[i].key != AT_NULL
    requires platform < top && random < top && execfn < top && Word(top)
    ensures var full := FullAuxv(auxv, platform, random, execfn);
      && NullTerminated(full)
      && (forall i :: 0 <= i < |full| ==> Word(full[i].key) && Word(full[i].value))
      && Find(full, AT_PLATFORM, |auxv|) == platform
      && Find(full, AT_RANDOM, |auxv|) == random
      && Find(full, AT_EXECFN, |auxv|) == execfn
  {
    var full, n := FullAuxv(auxv, platform, random, execfn), |auxv|;
    assert full[n] == Aux(AT_PLATFORM, platform) && full[n + 1] == Aux(AT_RANDOM, random);
    assert full[n + 2] == Aux(AT_EXECFN, execfn) && full[n + 3] == Aux(AT_NULL, 0);
    assert Find(full, AT_RANDOM, n) == Find(full, AT_RANDOM, n + 1);
    assert Find(full, AT_EXECFN, n) == Find(full, AT_EXECFN, n + 1) == Find(full, AT_EXECFN, n + 2);
  }

  lemma PlacedFits(m: Bytes, pl: Placed, envs: seq<Bytes>, args: seq<Bytes>, random: Bytes, lo: nat, hi: nat)
    requires PlacedAt(m, pl, envs, args, random, lo, hi) && Word(hi)
    ensures forall i :: 0 <= i < |pl.envp| ==> Word(pl.envp[i])
    ensures forall i :: 0 <= i < |pl.argv| ==> Word(pl.argv[i])
  {
  }

  /** The whole image reads back. */
  lemma StackReads(m: Bytes, sp: nat, at: Layout, pl: Placed, envs: seq<Bytes>, args: seq<Bytes>, auxv: seq<Aux>, random: Bytes, lo: nat, hi: nat)
    requires PlacedAt(m, pl, envs, args, random, lo, hi) && 0 < lo && NullTerminated(auxv)
    requires forall i :: 0 <= i < |args| ==> NulFree(args[i])
    requires forall i :: 0 <= i < |envs| ==> NulFree(envs[i])
    requires WordsAt(m, sp, [|args|]) && WordsAt(m, at.argv, pl.argv + [0])
    requires WordsAt(m, at.envp, pl.envp + [0]) && WordsAt(m, at.auxv, AuxWords(auxv))
    ensures sp + 8 <= |m| && ReadWord(m, sp) == |args|
    ensures ReadStrings(m, at.argv) == args && ReadStrings(m, at.envp) == envs && ReadAuxv(m, at.auxv) == auxv
    ensures ReadCString(m, pl.platform) == Platform()
    ensures args != [] ==> ReadCString(m, pl.argv[0]) == args[0]
  {
    WordsTail(m, sp, [|args|]);
    ReadStringsAt(m, at.argv, pl.argv, args, lo, hi);
    ReadStringsAt(m, at.envp, pl.envp, envs, lo, hi);
    ReadAuxvAt(m, at.auxv, auxv);
    ReadCStringAt(m, pl.platform, Platform());
    if args != [] {
      ReadCStringAt(m, pl.argv[0], args[0]);
    }
  }

  /**
   What a program finds that follows the layout: argc, the NULL-terminated argv and envp with
   their strings, and the auxiliary vector, whose entries from `n` on lead to the platform
   string, the random bytes and the name of the program.
   */
  ghost predicate Image(m: Bytes, at: Layout, args: seq<Bytes>, envs: seq<Bytes>, auxv: seq<Aux>, n: nat, random: Bytes) {
    && at.argc + 8 <= |m| && ReadWord(m, at.argc) == |args|
    && ReadStrings(m, at.argv) == args && ReadStrings(m, at.envp) == envs && ReadAuxv(m, at.auxv) == auxv
    && ReadCString(m, Find(auxv, AT_PLATFORM, n)) == Platform()
    && Find(auxv, AT_RANDOM, n) + |random| <= |m|
    && m[Find(auxv, AT_RANDOM, n)..Find(auxv, AT_RANDOM, n) + |random|] == random
    && (args != [] ==> ReadCString(m, Find(auxv, AT_EXECFN, n)) == args[0])
  }

  lemma ImageReads(m: Bytes, at: Layout, pl: Placed, envs: seq<Bytes>, args: seq<Bytes>, auxv: seq<Aux>, n: nat,
                   random: Bytes, lo: nat, hi: nat)
    requires PlacedAt(m, pl, envs, args, random, lo, hi) && 0 < lo && NullTerminated(auxv)
    requires forall i :: 0 <= i < |args| ==> NulFree(args[i])
    requires forall i :: 0 <= i < |envs| ==> NulFree(envs[i])
    requires WordsAt(m, at.argc, [|args|]) && WordsAt(m, at.argv, pl.argv + [0])
    requires WordsAt(m, at.envp, pl.envp + [0]) && WordsAt(m, at.auxv, AuxWords(auxv))
    requires Find(auxv, AT_PLATFORM, n) == pl.platform && Find(auxv, AT_RANDOM, n) == pl.random
    requires args != [] ==> Find(auxv, AT_EXECFN, n) == pl.argv[0]
    ensures Image(m, at, args, envs, auxv, n, random)
  {
    StackReads(m, at.argc, at, pl, envs, args, auxv, random, lo, hi);
  }

  /** A program that takes the first entry of each kind finds the added ones. */
  lemma ImageFromStart(m: Bytes, at: Layout, args: seq<Bytes>, envs: seq<Bytes>, was: seq<Aux>, auxv: seq<Aux>, random: Bytes)
    requires Image(m, at, args, envs, auxv, |was|, random) && was <= auxv && LacksAdded(was)
    ensures Image(m, at, args, envs, auxv, 0, random)
  {
    FindSkips(auxv, AT_PLATFORM, 0, |was|);
    FindSkips(auxv, AT_RANDOM, 0, |was|);
    FindSkips(auxv, AT_EXECFN, 0, |was|);
  }

  class StackInfo {
    var auxv: seq<Aux>
    var args: seq<Bytes>
    var envs: seq<Bytes>

    /** The first half of `build_stack`: environment, arguments, platform and random bytes. */
    method PlaceStrings(m: Memory, top: nat, random: Bytes) returns (sp: nat, pl: Placed)
      requires |random| == 16 && Room(envs, args, []) <= top <= |m.bytes| && m as object != this
      modifies m
      ensures |m.bytes| == |old(m.bytes)|
      ensures sp % 16 == 0 && sp <= top && top - sp <= StringsSize(envs) + StringsSize(args) + 69
      ensures PlacedAt(m.bytes, pl, envs, args, random, sp, top)
      ensures SameFrom(old(m.bytes), m.bytes, top) && SameBelow(old(m.bytes), m.bytes, sp)
    {
      ghost var m0 := m.bytes;
      var envp, argv;
      sp, envp := m.PushStrings(envs, top);
      ghost var m1, s1 := m.bytes, sp;
      sp := Align16(sp);
      var t := sp;
      sp, argv := m.PushStrings(args, sp);
      ghost var m2, s2 := m.bytes, sp;
      sp := Align16(sp);
      var plat := m.PushString(Platform(), sp);
      ghost var m3 := m.bytes;
      var rnd := plat - 16;
      m.bytes := Write(m.bytes, rnd, random);
      ghost var m4 := m.bytes;
      sp := Align16(rnd);
      pl := Placed(envp, argv, plat, rnd);

      // each stage only wrote below the one before
      StringsKept(m1, m2, t, envp, envs, s1, top);
      StringsKept(m2, m3, Align16(s2), envp, envs, s1, top);
      StringsKept(m3, m4, plat, envp, envs, s1, top);
      StringsKept(m2, m3, Align16(s2), argv, args, s2, t);
      StringsKept(m3, m4, plat, argv, args, s2, t);
      StringKept(m3, m4, plat, plat, Platform());
      StringsWiden(m4, envp, envs, s1, top, sp, top);
      StringsWiden(m4, argv, args, s2, t, sp, top);
    }

    /** The second half of `build_stack`: the word arrays and argc. */
    method PlaceArrays(m: Memory, top: nat, pl: Placed) returns (sp: nat, at: Layout)
      requires m as object != this && |pl.envp| == |envs| && |pl.argv| == |args|
      requires 16 * |auxv| + 8 * (|envs| + |args| + 3) <= top <= |m.bytes| && top % 16 == 0 && Word(top)
      requires (forall i :: 0 <= i < |pl.envp| ==> Word(pl.envp[i])) && (forall i :: 0 <= i < |pl.argv| ==> Word(pl.argv[i]))
      requires forall i :: 0 <= i < |auxv| ==> Word(auxv[i].key) && Word(auxv[i].value)
      modifies m
      ensures |m.bytes| == |old(m.bytes)|
      ensures at == Layout(sp, sp + 8, sp + 8 + 8 * (|args| + 1), sp + 8 + 8 * (|args| + 1) + 8 * (|envs| + 1))
      ensures at.auxv + 16 * |auxv| == top && sp % 8 == 0
      ensures WordsAt(m.bytes, sp, [|args|])
      ensures WordsAt(m.bytes, at.argv, pl.argv + [0])
      ensures WordsAt(m.bytes, at.envp, pl.envp + [0])
      ensures WordsAt(m.bytes, at.auxv, AuxWords(auxv))
      ensures SameFrom(old(m.bytes), m.bytes, top) && SameBelow(old(m.bytes), m.bytes, sp)
    {
      AuxWordsFit(auxv);
      var ws := AuxWords(auxv);
      var auxv0 := top - 16 * |auxv|;
      StaysAligned(top, 2 * |auxv|);
      m.PutWords(auxv0, ws);
      ghost var m1 := m.bytes;
      var envp0, argv0;
      sp, argv0, envp0 := PlacePointers(m, auxv0, pl.envp, pl.argv);
      WordsKept(m1, m.bytes, auxv0, auxv0, ws);
      at := Layout(sp, argv0, envp0, auxv0);
    }

    /** The two pointer arrays and argc, below `top`. */
    static method PlacePointers(m: Memory, top: nat, envp: seq<nat>, argv: seq<nat>) returns (sp: nat, argv0: nat, envp0: nat)
      requires 8 * (|envp| + |argv| + 3) <= top <= |m.bytes| && top % 8 == 0 && Word(top)
      requires (forall i :: 0 <= i < |envp| ==> Word(envp[i])) && (forall i :: 0 <= i < |argv| ==> Word(argv[i]))
      modifies m
      ensures |m.bytes| == |old(m.bytes)| && sp % 8 == 0
      ensures argv0 == sp + 8 && envp0 == argv0 + 8 * (|argv| + 1) && top == envp0 + 8 * (|envp| + 1)
      ensures WordsAt(m.bytes, sp, [|argv|]) && WordsAt(m.bytes, argv0, argv + [0]) && WordsAt(m.bytes, envp0, envp + [0])
      ensures SameFrom(old(m.bytes), m.bytes, top) && SameBelow(old(m.bytes), m.bytes, sp)
    {
      envp0 := PutPointers(m, top, envp);
      ghost var m2 := m.bytes;
      argv0 := PutPointers(m, envp0, argv);
      ghost var m3 := m.bytes;
      sp := argv0 - 8;
      StaysAligned(top, |envp| + |argv| + 3);
      m.PutWord(sp, |argv|);
      WordsKept(m2, m3, envp0, envp0, envp + [0]);
      WordsKept(m3, m.bytes, argv0, envp0, envp + [0]);
      WordsKept(m3, m.bytes, argv0, argv0, argv + [0]);
    }

    /** A pointer array below `top`: first its NULL, then the pointers under it. */
    static method PutPointers(m: Memory, top: nat, ptrs: seq<nat>) returns (p: nat)
      requires 8 * (|ptrs| + 1) <= top <= |m.bytes| && forall i :: 0 <= i < |ptrs| ==> Word(ptrs[i])
      modifies m
      ensures |m.bytes| == |old(m.bytes)| && p == top - 8 * (|ptrs| + 1)
      ensures WordsAt(m.bytes, p, ptrs + [0])
      ensures SameFrom(old(m.bytes), m.bytes, top) && SameBelow(old(m.bytes), m.bytes, p)
    {
      ghost var m0 := m.bytes;
      m.PutWord(top - 8, 0);
      ghost var m1 := m.bytes;
      p := top - 8 - 8 * |ptrs|;
      m.PutWords(p, ptrs);
      WordKept(m1, m.bytes, top - 8, top - 8);
      WordsAppend(m.bytes, p, ptrs, 0);
    }

    /** The `set_auxv_at_*` calls, in order. */
    method AddAuxv(platform: nat, random: nat, execfn: nat)
      modifies this`auxv
      ensures auxv == FullAuxv(old(auxv), platform, random, execfn)
    {
      auxv := auxv + [Aux(AT_PLATFORM, platform)];
      auxv := auxv + [Aux(AT_RANDOM, random)];
      auxv := auxv + [Aux(AT_EXECFN, execfn)];
      auxv := auxv + [Aux(AT_NULL, 0)];
    }

    /**
     `build_stack`: what the program reads from the returned layout is exactly
     its arguments, its environment and the auxiliary vector. The stack pointer is on an
     8-byte boundary, and on a 16-byte one only for an odd number of strings.
     */
    method BuildStack(m: Memory, ustackSp: nat, random: Bytes) returns (sp: nat, at: Layout)
      requires m as object != this && |random| == 16
      requires Room(envs, args, auxv) <= ustackSp <= |m.bytes| && Word(ustackSp)
      requires forall i :: 0 <= i < |auxv| ==> Word(auxv[i].key) && Word(auxv[i].value) && auxv[i].key != AT_NULL
      requires forall i :: 0 <= i < |args| ==> NulFree(args[i])
      requires forall i :: 0 <= i < |envs| ==> NulFree(envs[i])
      modifies m, this`auxv
      ensures |m.bytes| == |old(m.bytes)|
      ensures sp % 16 == 0 <==> (|args| + |envs|) % 2 == 1
      ensures sp % 8 == 0 && at.argc == sp
      ensures Image(m.bytes, at, args, envs, auxv, |old(auxv)|, random)
      ensures LacksAdded(old(auxv)) ==> Image(m.bytes, at, args, envs, auxv, 0, random)
      ensures |auxv| == |old(auxv)| + 4 && auxv[..|old(auxv)|] == old(auxv)
      ensures SameFrom(old(m.bytes), m.bytes, ustackSp) && SameBelow(old(m.bytes), m.bytes, sp)
    {
      ghost var top, was := 0, auxv;
      sp, at, top := Build(m, ustackSp, random);
      if LacksAdded(was) {
        ImageFromStart(m.bytes, at, args, envs, was, auxv, random);
      }
      SixteenAligned(top, |auxv|, |args| + |envs|, sp);
    }

    method Build(m: Memory, ustackSp: nat, random: Bytes) returns (sp: nat, at: Layout, ghost top: nat)
      requires m as object != this && |random| == 16
      requires Room(envs, args, auxv) <= ustackSp <= |m.bytes| && Word(ustackSp)
      requires forall i :: 0 <= i < |auxv| ==> Word(auxv[i].key) && Word(auxv[i].value) && auxv[i].key != AT_NULL
      requires forall i :: 0 <= i < |args| ==> NulFree(args[i])
      requires forall i :: 0 <= i < |envs| ==> NulFree(envs[i])
      modifies m, this`auxv
      ensures |m.bytes| == |old(m.bytes)|
      ensures top % 16 == 0 && top == sp + 8 * (|args| + |envs| + 3) + 16 * |auxv|
      ensures sp % 8 == 0 && at.argc == sp
      ensures Image(m.bytes, at, args, envs, auxv, |old(auxv)|, random)
      ensures |auxv| == |old(auxv)| + 4 && auxv[..|old(auxv)|] == old(auxv)
      ensures SameFrom(old(m.bytes), m.bytes, ustackSp) && SameBelow(old(m.bytes), m.bytes, sp)
    {
      var pl;
      sp, pl := PlaceStrings(m, ustackSp, random);
      ghost var m1 := m.bytes;
      top := sp;
      var execfn := if |pl.argv| > 0 then pl.argv[0] else 0;
      AddAuxv(pl.platform, pl.random, execfn);
      assert execfn < ustackSp;
      FullAuxvOk(old(auxv), pl.platform, pl.random, execfn, ustackSp);
      PlacedFits(m1, pl, envs, args, random, top, ustackSp);
      assert 16 * |auxv| + 8 * (|envs| + |args| + 3) <= sp;
      sp, at := PlaceArrays(m, sp, pl);
      assert 0 < top;
      PlacedKept(m1, m.bytes, top, pl, envs, args, random, top, ustackSp);
      ImageReads(m.bytes, at, pl, envs, args, auxv, |old(auxv)|, random, top, ustackSp);
    }
  }
}
