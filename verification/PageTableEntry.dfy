/**
 Page-table entries (`PageTableEntry` in harmony/kernel/src/arch/x86_64/paging/page_table.rs).

 An entry is a 64-bit word: bits 12 to 51 hold the frame number, the other 24 bits are flags.
 The kernel reads a word through `get`, for which the zero word is "no entry"; the rest of the
 model works on what `get` returns, and the lemmas here say that nothing is lost by that.
 */
module PageTableEntries {
  import opened Layout
  import opened Wrappers
  import DivMod

  /** The flags the kernel names, and the rest by position: bits 3-6, 8-11 and 52-62. */
  datatype Flags = Flags(present: bool, writable: bool, user: bool, huge: bool, noExecute: bool,
                         cache: nat, soft: nat, top: nat)

  const NO_FLAGS := Flags(false, false, false, false, false, 0, 0, 0)

  predicate ValidFlags(f: Flags) { f.cache < 16 && f.soft < 16 && f.top < 2048 }

  /** `flags | PageTableFlags::PRESENT`. */
  function WithPresent(f: Flags): (r: Flags) { f.(present := true) }

  datatype Mapping = Mapping(frame: nat, flags: Flags)

  predicate ValidMapping(m: Mapping) { m.frame < MAX_FRAMES && ValidFlags(m.flags) }

  type Bits = w: nat | w < 0x1_0000_0000_0000_0000

  function Bit(b: bool): (n: nat) { if b then 1 else 0 }

  function LowFlags(f: Flags): (n: nat) {
    Bit(f.present) + 2 * Bit(f.writable) + 4 * Bit(f.user) + 8 * f.cache + 128 * Bit(f.huge) + 256 * f.soft
  }

  function HighFlags(f: Flags): (n: nat) { f.top + 2048 * Bit(f.noExecute) }

  function FlagsOf(low: nat, high: nat): (f: Flags) {
    Flags(low % 2 == 1, low / 2 % 2 == 1, low / 4 % 2 == 1, low / 128 % 2 == 1, high / 2048 == 1,
          low / 8 % 16, low / 256, high % 2048)
  }

  function Word(low: nat, frame: nat, high: nat): (w: nat) {
    low + 0x1000 * frame + 0x10_0000_0000_0000 * high
  }

  /** `attributes.bits() | frame.base()`: the two operands have no bit in common. */
  function Pack(m: Mapping): (w: nat) { Word(LowFlags(m.flags), m.frame, HighFlags(m.flags)) }

  /** `get`. */
  function Get(w: Bits): (r: Option<Mapping>) {
    if w == 0 then None
    else Some(Mapping(w / 0x1000 % MAX_FRAMES, FlagsOf(w % 0x1000, w / 0x10_0000_0000_0000)))
  }

  /** What a later `get` sees after `set`. */
  function Stored(m: Mapping): (r: Option<Mapping>) {
    if m == Mapping(0, NO_FLAGS) then None else Some(m)
  }

  lemma {:induction false} LowRoundTrip(f: Flags)
    requires ValidFlags(f)
    ensures var low := LowFlags(f);
            && low < 0x1000 && low % 2 == Bit(f.present) && low / 2 % 2 == Bit(f.writable) && low / 4 % 2 == Bit(f.user)
            && low / 8 % 16 == f.cache && low / 128 % 2 == Bit(f.huge) && low / 256 == f.soft
  {
    var low := LowFlags(f);
    var above := Bit(f.huge) + 2 * f.soft;
    var high := f.cache + 16 * above;
    DivMod.Unique(low, 2, Bit(f.writable) + 2 * Bit(f.user) + 4 * high, Bit(f.present));
    DivMod.Unique(low / 2, 2, Bit(f.user) + 2 * high, Bit(f.writable));
    DivMod.Unique(low, 4, Bit(f.user) + 2 * high, Bit(f.present) + 2 * Bit(f.writable));
    DivMod.Unique(low / 4, 2, high, Bit(f.user));
    DivMod.Unique(low, 8, high, Bit(f.present) + 2 * Bit(f.writable) + 4 * Bit(f.user));
    DivMod.Unique(high, 16, above, f.cache);
    DivMod.Unique(low, 128, above, low - 128 * above);
    DivMod.Unique(above, 2, f.soft, Bit(f.huge));
    DivMod.Unique(low, 256, f.soft, low - 256 * f.soft);
  }

  lemma {:induction false} FlagsRoundTrip(f: Flags)
    requires ValidFlags(f)
    ensures LowFlags(f) < 0x1000 && HighFlags(f) < 0x1000 && FlagsOf(LowFlags(f), HighFlags(f)) == f
  {
    LowRoundTrip(f);
    DivMod.Unique(HighFlags(f), 2048, Bit(f.noExecute), f.top);
  }

  lemma {:induction false} SplitWord(low: nat, frame: nat, high: nat)
    requires low < 0x1000 && frame < MAX_FRAMES
    ensures var w := Word(low, frame, high);
            w % 0x1000 == low && w / 0x1000 % MAX_FRAMES == frame && w / 0x10_0000_0000_0000 == high
  {
  }

  lemma {:induction false} ZeroWord(low: nat, frame: nat, high: nat)
    ensures Word(low, frame, high) == 0 <==> low == 0 && frame == 0 && high == 0
  {
  }

  /** The word is a faithful store: reading back what `set` wrote gives it, frame and every flag. */
  lemma {:induction false} SetThenGet(m: Mapping)
    requires ValidMapping(m)
    ensures Pack(m) < 0x1_0000_0000_0000_0000 && Get(Pack(m)) == Stored(m)
  {
    var low, high := LowFlags(m.flags), HighFlags(m.flags);
    ZeroWord(low, m.frame, high);
    FlagsRoundTrip(m.flags);
    SplitWord(low, m.frame, high);
    var w := Word(low, m.frame, high);
    assert FlagsOf(w % 0x1000, w / 0x10_0000_0000_0000) == FlagsOf(low, high);
    assert FlagsOf(0, 0) == NO_FLAGS;
  }

  /** The bits a word is made of, at the positions section 4.5 of the Intel SDM, volume 3A, gives them. */
  lemma {:induction false} HardwareBits(m: Mapping)
    requires ValidMapping(m)
    ensures var w := Pack(m);
            && (w % 2 == 1 <==> m.flags.present) && (w / 2 % 2 == 1 <==> m.flags.writable)
            && (w / 4 % 2 == 1 <==> m.flags.user) && (w / 128 % 2 == 1 <==> m.flags.huge)
            && (w / 0x8000_0000_0000_0000 == 1 <==> m.flags.noExecute)
            && w / 0x1000 % 0x100_0000_0000 == m.frame
  {
    var low, high := LowFlags(m.flags), HighFlags(m.flags);
    FlagsRoundTrip(m.flags);
    LowRoundTrip(m.flags);
    SplitWord(low, m.frame, high);
    var rest := m.frame + MAX_FRAMES * high;
    LowBits(low, rest);
    TopBit(m.flags.top, Bit(m.flags.noExecute), low + 0x1000 * m.frame);
  }

  lemma {:induction false} LowBits(low: nat, rest: nat)
    requires low < 0x1000
    ensures var w := low + 0x1000 * rest;
            w % 2 == low % 2 && w / 2 % 2 == low / 2 % 2 && w / 4 % 2 == low / 4 % 2 && w / 128 % 2 == low / 128 % 2
  {
    var w := low + 0x1000 * rest;
    DivMod.Unique(w, 2, low / 2 + 0x800 * rest, low % 2);
    DivMod.Unique(w / 2, 2, low / 2 / 2 + 0x400 * rest, low / 2 % 2);
    DivMod.Unique(w, 4, low / 4 + 0x400 * rest, low % 4);
    DivMod.Unique(w / 4, 2, low / 4 / 2 + 0x200 * rest, low / 4 % 2);
    DivMod.Unique(w, 128, low / 128 + 32 * rest, low % 128);
    DivMod.Unique(w / 128, 2, low / 128 / 2 + 16 * rest, low / 128 % 2);
  }

  lemma {:induction false} TopBit(top: nat, bit: nat, below: nat)
    requires top < 2048 && below < 0x10_0000_0000_0000
    ensures (below + 0x10_0000_0000_0000 * (top + 2048 * bit)) / 0x8000_0000_0000_0000 == bit
  {
    DivMod.Unique(below + 0x10_0000_0000_0000 * (top + 2048 * bit), 0x8000_0000_0000_0000, bit, below + 0x10_0000_0000_0000 * top);
  }

  lemma {:induction false} SplitLow(low: nat)
    ensures low == low % 2 + 2 * (low / 2 % 2) + 4 * (low / 4 % 2) + 8 * (low / 8 % 16) +
                   128 * (low / 128 % 2) + 256 * (low / 256)
  {
    DivMod.Unique(low, 4, low / 2 / 2, low % 2 + 2 * (low / 2 % 2));
    DivMod.Unique(low, 8, low / 4 / 2, low % 4 + 4 * (low / 4 % 2));
    DivMod.Unique(low, 128, low / 8 / 16, low % 8 + 8 * (low / 8 % 16));
    DivMod.Unique(low, 256, low / 128 / 2, low % 128 + 128 * (low / 128 % 2));
  }

  lemma {:induction false} WordOfFlags(low: nat, high: nat)
    requires low < 0x1000 && high < 0x1000
    ensures ValidFlags(FlagsOf(low, high))
    ensures LowFlags(FlagsOf(low, high)) == low && HighFlags(FlagsOf(low, high)) == high
  {
    SplitLow(low);
  }

  /** Copying an entry with `get` then `set`, as `clone_kernel` does, reproduces the word. */
  lemma {:induction false} GetThenSet(w: Bits)
    requires w != 0
    ensures Get(w).Some? && ValidMapping(Get(w).value) && Pack(Get(w).value) == w
  {
    var low, rest := w % 0x1000, w / 0x1000;
    DivMod.Unique(w, 0x10_0000_0000_0000, rest / MAX_FRAMES, low + 0x1000 * (rest % MAX_FRAMES));
    WordOfFlags(low, rest / MAX_FRAMES);
  }
}
