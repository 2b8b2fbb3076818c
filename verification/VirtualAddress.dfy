/**
 Virtual addresses and their page-table indices
 (harmony/kernel/src/arch/x86_64/paging/virtual_address.rs, pages.rs).

 A `usize` is a number below 2^64; shifts and casts are written out as arithmetic.
 */
module VirtualAddresses {
  import opened Layout
  import opened Wrappers
  import DivMod

  const TWO16: nat := 0x1_0000
  const TWO47: nat := 0x8000_0000_0000
  const TWO48: nat := 0x1_0000_0000_0000
  const TWO63: nat := 0x8000_0000_0000_0000
  const TWO64: nat := 0x1_0000_0000_0000_0000

  type Usize = a: nat | a < TWO64

  /** The 48-bit sign-extended addresses: bits 47 to 63 are all equal. */
  predicate Canonical(addr: Usize) { addr < TWO47 || addr >= TWO64 - TWO47 }

  predicate LowerHalf(addr: Usize) { addr < TWO47 }

  function AsI64(v: Usize): (i: int) { if v < TWO63 then v else v - TWO64 }

  function AsUsize(i: int): (v: Usize) { i % TWO64 }

  /** `new_truncate`: shift the top 16 bits out, then shift back with the sign. */
  function NewTruncate(addr: Usize): (v: Usize) {
    AsUsize(AsI64((addr * TWO16) % TWO64) / TWO16)
  }

  function TryNew(addr: Usize): (r: Option<Usize>) {
    if NewTruncate(addr) == addr then Some(NewTruncate(addr)) else None
  }

  function ContainingPage(addr: Usize): (page: Usize) { addr / PAGE_SIZE * PAGE_SIZE }

  function P1(addr: Usize): (i: nat) { addr / 0x1000 % TWO16 % ENTRIES }
  function P2(addr: Usize): (i: nat) { addr / 0x1000 / 0x200 % TWO16 % ENTRIES }
  function P3(addr: Usize): (i: nat) { addr / 0x1000 / 0x200 / 0x200 % TWO16 % ENTRIES }
  function P4(addr: Usize): (i: nat) { addr / 0x1000 / 0x200 / 0x200 / 0x200 % TWO16 % ENTRIES }

  /** `1 << ((level - 1) * 9)`. */
  function LevelSpan(level: nat): (n: nat)
    requires 1 <= level <= 4
    ensures n > 0
  {
    if level == 1 then 1 else if level == 2 then 0x200 else if level == 3 then 0x4_0000 else 0x800_0000
  }

  /** `page_table_index`. */
  function PageTableIndex(addr: Usize, level: nat): (i: nat)
    requires 1 <= level <= 4
    ensures i < ENTRIES
  {
    addr / 0x1000 / LevelSpan(level) % TWO16 % ENTRIES
  }

  /** The indices a walk uses, top level first. */
  function Indices(addr: Usize): (path: seq<nat>)
    ensures |path| == 4 && forall d :: 0 <= d < 4 ==> path[d] < ENTRIES
  {
    seq(4, d requires 0 <= d < 4 => PageTableIndex(addr, 4 - d))
  }

  /** The address whose walk uses these indices, with bit 47 copied upwards. */
  function FromIndices(i4: nat, i3: nat, i2: nat, i1: nat): (addr: nat)
    requires i4 < ENTRIES && i3 < ENTRIES && i2 < ENTRIES && i1 < ENTRIES
  {
    (if i4 < 256 then 0 else TWO64 - TWO48) + 0x1000 * (i1 + 0x200 * (i2 + 0x200 * (i3 + 0x200 * i4)))
  }

  /** `try_new` accepts exactly the sign-extended addresses, and changes none of them. */
  lemma {:induction false} TryNewIffCanonical(addr: Usize)
    ensures TryNew(addr) == if Canonical(addr) then Some(addr) else None
  {
    var low := addr % TWO48;
    assert (addr * TWO16) % TWO64 == low * TWO16 by {
      assert addr == addr / TWO48 * TWO48 + low;
      assert addr * TWO16 == addr / TWO48 * TWO64 + low * TWO16;
    }
    assert NewTruncate(addr) == if low < TWO47 then low else low + TWO64 - TWO48;
  }

  /** `page_table_index` is p1..p4 at the four levels. */
  lemma {:induction false} IndexAtLevel(addr: Usize)
    ensures PageTableIndex(addr, 1) == P1(addr) && PageTableIndex(addr, 2) == P2(addr)
    ensures PageTableIndex(addr, 3) == P3(addr) && PageTableIndex(addr, 4) == P4(addr)
    ensures Indices(addr) == [P4(addr), P3(addr), P2(addr), P1(addr)]
  {
  }

  /** The bits above bit 47 repeat it, so the top index tells them. */
  lemma {:induction false} TopIndex(n4: nat, lower: bool)
    requires if lower then n4 < 256 else 0x200_0000 - 256 <= n4 < 0x200_0000
    ensures n4 == n4 % 512 + (if lower then 0 else 0x200_0000 - 512) && (lower <==> n4 % 512 < 256)
  {
  }

  /** A canonical page-aligned address is rebuilt from its four indices. */
  lemma {:induction false} IndicesDetermine(addr: Usize)
    requires Canonical(addr) && addr % PAGE_SIZE == 0
    ensures addr == FromIndices(P4(addr), P3(addr), P2(addr), P1(addr))
    ensures LowerHalf(addr) <==> P4(addr) < 256
  {
    var n := addr / 0x1000;
    var n2 := n / 0x200;
    var n3 := n2 / 0x200;
    var n4 := n3 / 0x200;
    DivMod.TruncateThenMod(n);
    DivMod.TruncateThenMod(n2);
    DivMod.TruncateThenMod(n3);
    DivMod.TruncateThenMod(n4);
    TopIndex(n4, LowerHalf(addr));
  }

  /** Two canonical page-aligned addresses are equal exactly when their walks use the same indices. */
  lemma {:induction false} IndicesInjective(a: Usize, b: Usize)
    requires Canonical(a) && Canonical(b) && a % PAGE_SIZE == 0 && b % PAGE_SIZE == 0
    ensures a == b <==> Indices(a) == Indices(b)
  {
    IndexAtLevel(a);
    IndexAtLevel(b);
    if Indices(a) == Indices(b) {
      assert Indices(a)[0] == Indices(b)[0] && Indices(a)[1] == Indices(b)[1];
      assert Indices(a)[2] == Indices(b)[2] && Indices(a)[3] == Indices(b)[3];
      IndicesDetermine(a);
      IndicesDetermine(b);
    }
  }
}
