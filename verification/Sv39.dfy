/**
 Addresses and page-table entries of Sv39 (section 4.4 of the RISC-V Privileged
 Architecture, version 20211203) as the kernel encodes them.
 */
module Sv39 {
  import opened BitOps

  const PAGE_SIZE: nat := 0x1000
  const PADDR_LOW: nat := 0x8020_0000
  const PADDR_HIGH: nat := 0x8800_0000
  const VADDR_LOW: nat := 0xffff_ffff_8020_0000
  const VADDR_HIGH: nat := 0xffff_ffff_8800_0000
  const VIRTIO0: nat := 0xffff_ffff_1000_1000
  const LOW_LIMIT: nat := 0
  const USER_UPPER_LIMIT: nat := 0xffff_ffff
  const KERNEL_PTE_POS: nat := 510
  const KERNEL_MMIO_PTE_POS: nat := 508

  // ----- addresses ---------------------------------------------------------

  /** The addresses that `check_user_va` lets through. */
  predicate CheckedVa(va: nat) {
    || VADDR_LOW <= va <= VADDR_HIGH
    || VIRTIO0 <= va <= VIRTIO0 + 0x4000
    || LOW_LIMIT <= va <= USER_UPPER_LIMIT
  }

  predicate CheckedVpn(vpn: nat) {
    CheckedVa(vpn * PAGE_SIZE)
  }

  /** Physical pages that `pte_array` and `byte_array` may touch. */
  predicate Frame(ppn: nat) {
    PADDR_LOW <= ppn * PAGE_SIZE <= PADDR_HIGH
  }

  datatype Index = Index(top: nat, mid: nat, low: nat)

  /** `vaddr_to_pte_vpn` of the page's address: `(va >> 30) & 0x1ff` and so on. */
  function Split(vpn: nat): (i: Index)
    ensures i.top < 512 && i.mid < 512 && i.low < 512
  {
    var va := vpn * PAGE_SIZE;
    Index(va / 0x4000_0000 % 512, va / 0x20_0000 % 512, va / 0x1000 % 512)
  }

  predicate KernelSlot(i: nat) {
    i == KERNEL_PTE_POS || i == KERNEL_MMIO_PTE_POS
  }

  predicate KernelVpn(vpn: nat) {
    KernelSlot(Split(vpn).top)
  }

  /** What `Split` computes, on page numbers. */
  lemma SplitOnVpn(vpn: nat)
    ensures Split(vpn) == Index(vpn / 0x4_0000 % 512, vpn / 0x200 % 512, vpn % 512)
  {
    assert vpn * PAGE_SIZE / 0x4000_0000 == vpn / 0x4_0000;
    assert vpn * PAGE_SIZE / 0x20_0000 == vpn / 0x200;
    assert vpn * PAGE_SIZE / 0x1000 == vpn;
  }

  /** The root slot tells the two halves of the checked domain apart. */
  lemma TopOfChecked(vpn: nat)
    requires CheckedVpn(vpn)
    ensures !KernelVpn(vpn) <==> vpn < 0x10_0000
    ensures !KernelVpn(vpn) ==> vpn / 0x4_0000 == Split(vpn).top
    ensures KernelVpn(vpn) ==> vpn / 0x4_0000 == 0x3_ffff_fe00 + Split(vpn).top
  {
    SplitOnVpn(vpn);
  }

  lemma Digits(v: nat)
    ensures v == v / 0x4_0000 * 0x4_0000 + v / 0x200 % 512 * 512 + v % 512
  {
  }

  /** The 9/9/9 split is injective on checked pages (it is not on all of `usize`). */
  lemma SplitInjective(v: nat, w: nat)
    requires CheckedVpn(v) && CheckedVpn(w) && Split(v) == Split(w)
    ensures v == w
  {
    SplitOnVpn(v);
    SplitOnVpn(w);
    assert v / 0x4_0000 == w / 0x4_0000 by {
      TopOfChecked(v);
      TopOfChecked(w);
    }
    Digits(v);
    Digits(w);
  }

  // ----- page-table entries ------------------------------------------------

  /** `PTEFlags`, bits 0 to 8 of an entry. */
  datatype Flags = Flags(v: bool, r: bool, w: bool, x: bool, u: bool, g: bool, a: bool, d: bool, cow: bool)

  function FlagSeq(f: Flags): seq<bool> {
    [f.v, f.r, f.w, f.x, f.u, f.g, f.a, f.d, f.cow]
  }

  function Bits(f: Flags): nat {
    Pack(FlagSeq(f))
  }

  /** `from_bits`; every one of the nine bits is a defined flag. */
  function FromBits(n: nat): Flags {
    FromSeq(seq(9, i requires 0 <= i => GetBit(n, i)))
  }

  function FromSeq(s: seq<bool>): Flags
    requires |s| == 9
  {
    Flags(s[0], s[1], s[2], s[3], s[4], s[5], s[6], s[7], s[8])
  }

  lemma FlagSeqOfSeq(s: seq<bool>)
    requires |s| == 9
    ensures FlagSeq(FromSeq(s)) == s
  {
  }

  lemma SeqOfFlagSeq(f: Flags)
    ensures FromSeq(FlagSeq(f)) == f
  {
  }

  function NewPte(ppn: nat, flags: Flags): nat {
    Or(Shl(ppn, 10), Bits(flags))
  }

  function FlagsOf(pte: nat): Flags {
    FromBits(Mask(pte, 9))
  }

  function PpnOf(pte: nat): nat {
    Mask(Shr(pte, 10), 44)
  }

  predicate IsValid(pte: nat) {
    FlagsOf(pte).v
  }

  function SetFlags(pte: nat, flags: Flags): nat {
    Or(Shl(PpnOf(pte), 10), Bits(flags))
  }

  /** The low bits of an entry are its flags, the bits above are its page number. */
  lemma NewPteBits(ppn: nat, flags: Flags, i: nat)
    ensures GetBit(NewPte(ppn, flags), i) == if i < 10 then i < 9 && FlagSeq(flags)[i] else GetBit(ppn, i - 10)
  {
    GetOr(Shl(ppn, 10), Bits(flags), i);
    GetShl(ppn, 10, i);
    GetPack(FlagSeq(flags), i);
  }

  lemma FlagsOfBits(pte: nat, i: nat)
    requires i < 9
    ensures FlagSeq(FlagsOf(pte))[i] == GetBit(pte, i)
  {
    var n := Mask(pte, 9);
    GetMask(pte, 9, i);
    FlagSeqOfSeq(seq(9, j requires 0 <= j => GetBit(n, j)));
  }

  lemma PpnOfBits(pte: nat, i: nat)
    ensures GetBit(PpnOf(pte), i) == (i < 44 && GetBit(pte, i + 10))
  {
    GetMask(Shr(pte, 10), 44, i);
    GetShr(pte, 10, i);
  }

  lemma SameFlags(f: Flags, g: Flags)
    requires forall i :: 0 <= i < 9 ==> FlagSeq(f)[i] == FlagSeq(g)[i]
    ensures f == g
  {
    assert FlagSeq(f) == FlagSeq(g);
    SeqOfFlagSeq(f);
    SeqOfFlagSeq(g);
  }

  /** The page numbers an entry can hold: 44 bits. */
  predicate PteRange(ppn: nat) {
    ppn < Shl(1, 44)
  }

  lemma FrameInRange(ppn: nat)
    requires Frame(ppn)
    ensures PteRange(ppn)
  {
    assert Shl(1, 10) == 0x400;
    assert Shl(1, 20) == 0x10_0000;
    ShlMono(20, 44);
  }

  lemma {:induction false} ShlMono(j: nat, k: nat)
    requires j <= k
    ensures Shl(1, j) <= Shl(1, k)
  {
    if j < k {
      ShlMono(j, k - 1);
    }
  }

  /** An entry reads back as it was written. */
  lemma PteRoundTrip(ppn: nat, flags: Flags)
    requires PteRange(ppn)
    ensures PpnOf(NewPte(ppn, flags)) == ppn
    ensures FlagsOf(NewPte(ppn, flags)) == flags
  {
    var pte := NewPte(ppn, flags);
    forall i | 0 <= i < 9
      ensures FlagSeq(FlagsOf(pte))[i] == FlagSeq(flags)[i]
    {
      FlagsOfBits(pte, i);
      NewPteBits(ppn, flags, i);
    }
    SameFlags(FlagsOf(pte), flags);
    forall i: nat
      ensures GetBit(PpnOf(pte), i) == GetBit(ppn, i)
    {
      PpnOfBits(pte, i);
      NewPteBits(ppn, flags, i + 10);
      if i >= 44 {
        HighBits(ppn, 44, i);
      }
    }
    SameBits(PpnOf(pte), ppn);
  }

  /** The flags by bit number, as in the standard, which leaves bits 8 and 9 to software. */
  predicate FlagAt(f: Flags, i: nat) {
    match i
    case 0 => f.v
    case 1 => f.r
    case 2 => f.w
    case 3 => f.x
    case 4 => f.u
    case 5 => f.g
    case 6 => f.a
    case 7 => f.d
    case 8 => f.cow
    case _ => false
  }

  lemma FlagSeqAt(f: Flags, i: nat)
    ensures (i < 9 && FlagSeq(f)[i]) == FlagAt(f, i)
  {
  }

  /** Every bit of an entry is where the standard has it. */
  lemma PteLayout(ppn: nat, f: Flags, i: nat)
    ensures GetBit(NewPte(ppn, f), i) == if i < 10 then FlagAt(f, i) else GetBit(ppn, i - 10)
  {
    NewPteBits(ppn, f, i);
    FlagSeqAt(f, i);
  }

  /** `set_flags` keeps the page number and replaces the flags. */
  lemma SetFlagsRoundTrip(pte: nat, flags: Flags)
    ensures PpnOf(SetFlags(pte, flags)) == PpnOf(pte)
    ensures FlagsOf(SetFlags(pte, flags)) == flags
  {
    PpnInRange(pte);
    PteRoundTrip(PpnOf(pte), flags);
  }

  lemma {:induction false} MaskBound(n: nat, k: nat)
    ensures Mask(n, k) < Shl(1, k)
  {
    if k > 0 {
      MaskBound(n / 2, k - 1);
    }
  }

  lemma PpnInRange(pte: nat)
    ensures PteRange(PpnOf(pte))
  {
    MaskBound(Shr(pte, 10), 44);
  }

  /** The loop of `modify_flags`: bits 1 to 4 are copied from `flags`. */
  method ModifyBits(pte: nat, flags: Flags) returns (e: nat)
    ensures e == ModifiedPte(pte, flags)
  {
    e := pte;
    for i := 1 to 5
      invariant e == SetBitsUpTo(pte, flags, i)
    {
      GetPack(FlagSeq(flags), i);
      e := SetBit(e, i, GetBit(Bits(flags), i));
    }
  }

  function SetBitsUpTo(pte: nat, flags: Flags, n: nat): nat
    requires 1 <= n <= 5
  {
    if n == 1 then pte else SetBit(SetBitsUpTo(pte, flags, n - 1), n - 1, FlagSeq(flags)[n - 1])
  }

  function ModifiedPte(pte: nat, flags: Flags): nat {
    SetBitsUpTo(pte, flags, 5)
  }

  lemma {:induction false} SetBitsUpToBits(pte: nat, flags: Flags, n: nat, j: nat)
    requires 1 <= n <= 5
    ensures GetBit(SetBitsUpTo(pte, flags, n), j) == if 1 <= j < n then FlagSeq(flags)[j] else GetBit(pte, j)
  {
    if n > 1 {
      SetBitsUpToBits(pte, flags, n - 1, j);
      GetSetBit(SetBitsUpTo(pte, flags, n - 1), n - 1, FlagSeq(flags)[n - 1], j);
    }
  }

  lemma ModifiedFlagAt(pte: nat, flags: Flags, i: nat)
    requires i < 9
    ensures FlagSeq(FlagsOf(ModifiedPte(pte, flags)))[i] == if 1 <= i < 5 then FlagSeq(flags)[i] else FlagSeq(FlagsOf(pte))[i]
  {
    FlagsOfBits(ModifiedPte(pte, flags), i);
    FlagsOfBits(pte, i);
    SetBitsUpToBits(pte, flags, 5, i);
  }

  lemma ModifiedPpn(pte: nat, flags: Flags)
    ensures PpnOf(ModifiedPte(pte, flags)) == PpnOf(pte)
  {
    var e := ModifiedPte(pte, flags);
    forall i: nat
      ensures GetBit(PpnOf(e), i) == GetBit(PpnOf(pte), i)
    {
      PpnOfBits(e, i);
      PpnOfBits(pte, i);
      SetBitsUpToBits(pte, flags, 5, i + 10);
    }
    SameBits(PpnOf(e), PpnOf(pte));
  }

  /** `modify_flags` changes R, W, X and U and nothing else. */
  lemma ModifiedPteMeaning(pte: nat, flags: Flags)
    ensures PpnOf(ModifiedPte(pte, flags)) == PpnOf(pte)
    ensures FlagsOf(ModifiedPte(pte, flags)) == FlagsOf(pte).(r := flags.r, w := flags.w, x := flags.x, u := flags.u)
  {
    forall i | 0 <= i < 9
      ensures FlagSeq(FlagsOf(ModifiedPte(pte, flags)))[i] == if 1 <= i < 5 then FlagSeq(flags)[i] else FlagSeq(FlagsOf(pte))[i]
    {
      ModifiedFlagAt(pte, flags, i);
    }
    RwxuFlags(FlagsOf(pte), flags, FlagsOf(ModifiedPte(pte, flags)));
    ModifiedPpn(pte, flags);
  }

  /** Bits 1 to 4 are R, W, X and U. */
  lemma RwxuFlags(was: Flags, flags: Flags, now: Flags)
    requires forall i :: 0 <= i < 9 ==> FlagSeq(now)[i] == if 1 <= i < 5 then FlagSeq(flags)[i] else FlagSeq(was)[i]
    ensures now == was.(r := flags.r, w := flags.w, x := flags.x, u := flags.u)
  {
    var s, t, n := FlagSeq(was), FlagSeq(flags), FlagSeq(now);
    assert n[0] == s[0] && n[1] == t[1] && n[2] == t[2] && n[3] == t[3] && n[4] == t[4];
    assert n[5] == s[5] && n[6] == s[6] && n[7] == s[7] && n[8] == s[8];
  }
}
