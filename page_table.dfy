/** The page-table walk of `setup_paging` in src/boot.rs, which makes every mapping
    reachable from the active paging hierarchy accessible from user mode.

    The tables are the IA-32e paging structures (section 4.5 of volume 3A of the
    Intel 64 and IA-32 Architectures Software Developer's Manual): 512 entries of
    64 bits per table, with the U/S flag in bit 2 and the PS ("huge page") flag in
    bit 7. Physical memory is one array of 64-bit words. Control registers are not read: the root table's address
    and the number of levels are inputs. */
module PageTable {

  const ENTRY_COUNT: nat := 512

  /** `PageTableFlags::USER_ACCESSIBLE`, bit 2. */
  const USER_ACCESSIBLE: bv64 := 0x4

  /** `PageTableFlags::HUGE_PAGE`, bit 7. */
  const HUGE_PAGE: bv64 := 0x80

  /** The frame address field masked out by `paging_pointer`: bits 12 to 51. */
  const ADDRESS_MASK: bv64 := 0x000f_ffff_ffff_f000

  /** The bits that `PageTableFlags` names: bits 0 to 11 and 52 to 63. */
  const KNOWN_FLAGS: bv64 := 0xfff0_0000_0000_0fff

  /** `paging_pointer(entry)`: the physical address of the table an entry points
      to, 4 KiB aligned and below 2^52. */
  function PagingPointer(entry: bv64): (p: bv64)
    ensures p & 0xfff == 0
    ensures p < 0x10_0000_0000_0000
  {
    entry & ADDRESS_MASK
  }

  /** `PageTableFlags::from_bits_truncate(entry)`. */
  function FlagsOf(entry: bv64): bv64
  {
    entry & KNOWN_FLAGS
  }

  /** `entry | flags.bits()` where `flags` is the entry's flags with
      `USER_ACCESSIBLE` added: the U/S bit is set and every other bit, the frame
      address included, is kept. */
  function WithUserAccess(entry: bv64): (e: bv64)
    ensures e == entry | USER_ACCESSIBLE
  {
    entry | (FlagsOf(entry) | USER_ACCESSIBLE)
  }

  /** What one step of the walk leaves in a slot: zero entries are not written,
      others get the U/S bit. */
  function Updated(entry: bv64): (e: bv64)
    ensures entry == 0 ==> e == 0
    ensures entry != 0 ==> e == WithUserAccess(entry) == entry | USER_ACCESSIBLE && e != 0
  {
    if entry == 0 then 0 else WithUserAccess(entry)
  }

  /** Whether the walk descends through `entry` of a table at `level`: the entry is
      non-zero, the table is not a last-level one, and the entry does not map a
      huge page. */
  predicate Descends(entry: bv64, level: nat)
  {
    entry != 0 && level > 1 && (FlagsOf(entry) | USER_ACCESSIBLE) & HUGE_PAGE != HUGE_PAGE
  }

  /** Setting the U/S bit twice is setting it once, and it touches neither the
      PS flag as `PageTableFlags` sees it nor the frame address. */
  lemma UserBitFacts(entry: bv64)
    ensures (entry | USER_ACCESSIBLE) | USER_ACCESSIBLE == entry | USER_ACCESSIBLE
    ensures (FlagsOf(entry | USER_ACCESSIBLE) | USER_ACCESSIBLE) & HUGE_PAGE == (FlagsOf(entry) | USER_ACCESSIBLE) & HUGE_PAGE
    ensures (entry | USER_ACCESSIBLE) & ADDRESS_MASK == entry & ADDRESS_MASK
  {
  }

  /** Updating an entry is idempotent and changes neither whether the walk
      descends through it nor where to. */
  lemma UpdatedKeepsLinks(entry: bv64, level: nat)
    ensures Updated(Updated(entry)) == Updated(entry)
    ensures Descends(Updated(entry), level) == Descends(entry, level)
    ensures PagingPointer(Updated(entry)) == PagingPointer(entry)
  {
    if entry != 0 {
      var e := entry | USER_ACCESSIBLE;
      UserBitFacts(entry);
      assert Updated(entry) == e;
      assert Updated(e) == e;
      assert Descends(e, level) == Descends(entry, level) by {
        assert (FlagsOf(e) | USER_ACCESSIBLE) & HUGE_PAGE == (FlagsOf(entry) | USER_ACCESSIBLE) & HUGE_PAGE;
      }
      assert PagingPointer(e) == PagingPointer(entry);
    }
  }

  /** The number of the 4 KiB frame holding address `p`. */
  function Frame(p: bv64): nat
  {
    (p >> 12) as nat
  }

  /** Physical memory is a sequence of 64-bit words; the table in frame `f` is
      the 512 words from `f * 512`. Entry `i` of that table, zero past the end. */
  ghost function Entry(s: seq<bv64>, f: nat, i: nat): bv64
  {
    if f * ENTRY_COUNT + i < |s| then s[f * ENTRY_COUNT + i] else 0
  }

  /** The frames of the tables the walk from frame `f` at `level` visits. */
  ghost function Visited(s: seq<bv64>, f: nat, level: nat): (v: set<nat>)
    ensures f in v
    decreases level, ENTRY_COUNT + 1
  {
    {f} + VisitedBelow(s, f, level, ENTRY_COUNT)
  }

  /** The frames visited through the first `n` entries of the table in frame `f`. */
  ghost function VisitedBelow(s: seq<bv64>, f: nat, level: nat, n: nat): set<nat>
    requires n <= ENTRY_COUNT
    decreases level, n
  {
    if n == 0 then {}
    else
      var e := Entry(s, f, n - 1);
      VisitedBelow(s, f, level, n - 1) + (if Descends(e, level) then Visited(s, Frame(PagingPointer(e)), level - 1) else {})
  }

  /** Every frame in `frames` lies inside memory `s`. */
  ghost predicate InMemory(s: seq<bv64>, frames: set<nat>)
  {
    forall f :: f in frames ==> (f + 1) * ENTRY_COUNT <= |s|
  }

  /** The walk from a last-level table visits nothing else: the depth is bounded
      by the starting level. */
  lemma {:induction false} LastLevelVisitsNothingBelow(s: seq<bv64>, f: nat, n: nat)
    requires n <= ENTRY_COUNT
    ensures VisitedBelow(s, f, 1, n) == {}
  {
    if n > 0 {
      LastLevelVisitsNothingBelow(s, f, n - 1);
    }
  }

  /** Two memory states whose words differ at most in the U/S bit of non-zero
      words. */
  ghost predicate SameLinks(s: seq<bv64>, t: seq<bv64>)
  {
    |s| == |t| && forall w :: 0 <= w < |s| ==> Updated(s[w]) == Updated(t[w])
  }

  /** Marking entries does not change what the walk visits. */
  lemma {:induction false} VisitedKeepsUnderUpdate(s: seq<bv64>, t: seq<bv64>, f: nat, level: nat)
    requires SameLinks(s, t)
    ensures Visited(s, f, level) == Visited(t, f, level)
    decreases level, ENTRY_COUNT + 1
  {
    VisitedBelowKeepsUnderUpdate(s, t, f, level, ENTRY_COUNT);
  }

  lemma {:induction false} VisitedBelowKeepsUnderUpdate(s: seq<bv64>, t: seq<bv64>, f: nat, level: nat, n: nat)
    requires SameLinks(s, t)
    requires n <= ENTRY_COUNT
    ensures VisitedBelow(s, f, level, n) == VisitedBelow(t, f, level, n)
    decreases level, n
  {
    if n > 0 {
      VisitedBelowKeepsUnderUpdate(s, t, f, level, n - 1);
      var e, g := Entry(s, f, n - 1), Entry(t, f, n - 1);
      UpdatedKeepsLinks(e, level);
      UpdatedKeepsLinks(g, level);
      assert Updated(e) == Updated(g);
      if Descends(e, level) {
        VisitedKeepsUnderUpdate(s, t, Frame(PagingPointer(e)), level - 1);
      }
    }
  }

  /** The frames visited through the first entries of a table only grow as more
      entries are taken. */
  lemma {:induction false} VisitedBelowGrows(s: seq<bv64>, f: nat, level: nat, m: nat, n: nat)
    requires m <= n <= ENTRY_COUNT
    ensures VisitedBelow(s, f, level, m) <= VisitedBelow(s, f, level, n)
    decreases n
  {
    if m < n {
      VisitedBelowGrows(s, f, level, m, n - 1);
    }
  }

  /** `r` is memory `s0` with every non-zero word of the tables in `frames`, and of
      the first `i` entries of the table in frame `f`, given the U/S bit; every
      other word is unchanged. */
  ghost predicate MarkedUpTo(s0: seq<bv64>, r: seq<bv64>, frames: set<nat>, f: nat, i: nat)
  {
    |r| == |s0| &&
    forall w :: 0 <= w < |r| ==>
      r[w] == if w / ENTRY_COUNT in frames || (w / ENTRY_COUNT == f && w % ENTRY_COUNT < i) then Updated(s0[w]) else s0[w]
  }

  /** `r` is memory `s0` with the tables in `frames`, and nothing else, marked
      user accessible. */
  ghost predicate Marked(s0: seq<bv64>, r: seq<bv64>, frames: set<nat>)
  {
    MarkedUpTo(s0, r, frames, 0, 0)
  }

  /** Marking keeps the links the walk follows. */
  lemma MarkedKeepsLinks(s0: seq<bv64>, r: seq<bv64>, frames: set<nat>, f: nat, i: nat, level: nat)
    requires MarkedUpTo(s0, r, frames, f, i)
    ensures SameLinks(r, s0)
  {
    forall w | 0 <= w < |r| ensures Updated(r[w]) == Updated(s0[w]) {
      UpdatedKeepsLinks(s0[w], level);
    }
  }

  /** Marking entry `i` of the table in frame `f` extends the marked prefix by one,
      whether or not that table was marked already. */
  lemma MarkSlot(s0: seq<bv64>, r: seq<bv64>, frames: set<nat>, f: nat, i: nat)
    requires MarkedUpTo(s0, r, frames, f, i)
    requires i < ENTRY_COUNT && (f + 1) * ENTRY_COUNT <= |r|
    ensures MarkedUpTo(s0, r[f * ENTRY_COUNT + i := Updated(r[f * ENTRY_COUNT + i])], frames, f, i + 1)
  {
    var k := f * ENTRY_COUNT + i;
    assert k / ENTRY_COUNT == f && k % ENTRY_COUNT == i;
    UpdatedKeepsLinks(s0[k], 0);
  }

  /** Marking the tables in `more` after those already marked marks both. */
  lemma MarkAfter(s0: seq<bv64>, r1: seq<bv64>, r2: seq<bv64>, frames: set<nat>, more: set<nat>, f: nat, i: nat)
    requires MarkedUpTo(s0, r1, frames, f, i)
    requires Marked(r1, r2, more)
    ensures MarkedUpTo(s0, r2, frames + more, f, i)
  {
    forall w | 0 <= w < |r2|
      ensures r2[w] == if w / ENTRY_COUNT in frames + more || (w / ENTRY_COUNT == f && w % ENTRY_COUNT < i) then Updated(s0[w]) else s0[w]
    {
      UpdatedKeepsLinks(s0[w], 0);
    }
  }

  /** Entry `i` of the table in frame `f`, as the walk reads it from partly marked
      memory, is zero, descends and points exactly where it did in `s0`. */
  lemma ReadEntry(s0: seq<bv64>, r: seq<bv64>, frames: set<nat>, f: nat, i: nat, level: nat)
    requires MarkedUpTo(s0, r, frames, f, i)
    requires i < ENTRY_COUNT && (f + 1) * ENTRY_COUNT <= |r|
    ensures Entry(s0, f, i) == s0[f * ENTRY_COUNT + i]
    ensures (r[f * ENTRY_COUNT + i] == 0) == (Entry(s0, f, i) == 0)
    ensures Descends(r[f * ENTRY_COUNT + i], level) == Descends(Entry(s0, f, i), level)
    ensures PagingPointer(r[f * ENTRY_COUNT + i]) == PagingPointer(Entry(s0, f, i))
  {
    var k := f * ENTRY_COUNT + i;
    UpdatedKeepsLinks(s0[k], level);
  }

  /** Before the walk descends through entry `i` of the table in frame `f`, the
      child's walk in the partly marked memory `r` is the one in `s0`, and it
      stays inside memory. */
  lemma DescendReady(s0: seq<bv64>, r: seq<bv64>, f: nat, i: nat, level: nat)
    requires i < ENTRY_COUNT && Descends(Entry(s0, f, i), level)
    requires MarkedUpTo(s0, r, VisitedBelow(s0, f, level, i), f, i + 1)
    requires InMemory(s0, Visited(s0, f, level))
    ensures Visited(r, Frame(PagingPointer(Entry(s0, f, i))), level - 1) == Visited(s0, Frame(PagingPointer(Entry(s0, f, i))), level - 1)
    ensures InMemory(r, Visited(r, Frame(PagingPointer(Entry(s0, f, i))), level - 1))
  {
    MarkedKeepsLinks(s0, r, VisitedBelow(s0, f, level, i), f, i + 1, level);
    VisitedKeepsUnderUpdate(r, s0, Frame(PagingPointer(Entry(s0, f, i))), level - 1);
    VisitedBelowGrows(s0, f, level, i + 1, ENTRY_COUNT);
  }

  /** After the walk has come back from entry `i`, the marked tables are those
      visited through the first `i + 1` entries. */
  lemma DescendDone(s0: seq<bv64>, r1: seq<bv64>, r2: seq<bv64>, f: nat, i: nat, level: nat)
    requires i < ENTRY_COUNT && Descends(Entry(s0, f, i), level)
    requires MarkedUpTo(s0, r1, VisitedBelow(s0, f, level, i), f, i + 1)
    requires Marked(r1, r2, Visited(s0, Frame(PagingPointer(Entry(s0, f, i))), level - 1))
    ensures MarkedUpTo(s0, r2, VisitedBelow(s0, f, level, i + 1), f, i + 1)
  {
    MarkAfter(s0, r1, r2, VisitedBelow(s0, f, level, i), Visited(s0, Frame(PagingPointer(Entry(s0, f, i))), level - 1), f, i + 1);
  }

  /** Without descending, entry `i` adds no tables to the walk. */
  lemma NoDescent(s0: seq<bv64>, r: seq<bv64>, f: nat, i: nat, level: nat)
    requires i < ENTRY_COUNT && !Descends(Entry(s0, f, i), level)
    requires MarkedUpTo(s0, r, VisitedBelow(s0, f, level, i), f, i + 1)
    ensures MarkedUpTo(s0, r, VisitedBelow(s0, f, level, i + 1), f, i + 1)
  {
  }

  /** Once all 512 entries are done, exactly the visited tables are marked. */
  lemma TableDone(s0: seq<bv64>, r: seq<bv64>, f: nat, level: nat)
    requires MarkedUpTo(s0, r, VisitedBelow(s0, f, level, ENTRY_COUNT), f, ENTRY_COUNT)
    ensures Marked(s0, r, Visited(s0, f, level))
  {
    forall w | 0 <= w < |r|
      ensures (w / ENTRY_COUNT in Visited(s0, f, level)) == (w / ENTRY_COUNT in VisitedBelow(s0, f, level, ENTRY_COUNT) || (w / ENTRY_COUNT == f && w % ENTRY_COUNT < ENTRY_COUNT))
    {
    }
  }

  /** Before the loop, nothing is marked. */
  lemma NothingMarked(s0: seq<bv64>, f: nat, level: nat)
    ensures MarkedUpTo(s0, s0, VisitedBelow(s0, f, level, 0), f, 0)
  {
  }

  /** A zero entry is skipped, and the marked prefix still grows by one. */
  lemma ZeroSlot(s0: seq<bv64>, r: seq<bv64>, f: nat, i: nat, level: nat)
    requires i < ENTRY_COUNT && (f + 1) * ENTRY_COUNT <= |r|
    requires MarkedUpTo(s0, r, VisitedBelow(s0, f, level, i), f, i)
    requires r[f * ENTRY_COUNT + i] == 0
    ensures MarkedUpTo(s0, r, VisitedBelow(s0, f, level, i + 1), f, i + 1)
  {
    ReadEntry(s0, r, VisitedBelow(s0, f, level, i), f, i, level);
    MarkSlot(s0, r, VisitedBelow(s0, f, level, i), f, i);
    assert r[f * ENTRY_COUNT + i := Updated(r[f * ENTRY_COUNT + i])] == r;
    NoDescent(s0, r, f, i, level);
  }

  /** `setup_page_map(map, level)` on the table at the 4 KiB aligned address
      `table`: every table the walk visits has each of its non-zero entries
      replaced by the entry with the U/S bit set; zero entries and every word
      outside the visited tables are left alone. Cycles in the hierarchy are
      harmless: the level drops at every step. */
  method SetupPageMap(ram: array<bv64>, table: bv64, level: nat)
    requires table & 0xfff == 0
    requires InMemory(ram[..], Visited(ram[..], Frame(table), level))
    modifies ram
    ensures Marked(old(ram[..]), ram[..], Visited(old(ram[..]), Frame(table), level))
    decreases level, 1
  {
    ghost var s0 := ram[..];
    var f := Frame(table);
    NothingMarked(s0, f, level);
    for i := 0 to ENTRY_COUNT
      invariant MarkedUpTo(s0, ram[..], VisitedBelow(s0, f, level, i), f, i)
    {
      MarkEntry(ram, f, i, level, s0);
    }
    TableDone(s0, ram[..], f, level);
  }

  /** One turn of the loop of `setup_page_map`: entry `i` of the table in frame
      `f`, whose walk over the memory `s0` the loop started from is marked up to
      that entry. A non-zero entry gets the U/S bit, and the walk descends
      through it unless the table is a last-level one or the entry maps a huge
      page. */
  method MarkEntry(ram: array<bv64>, f: nat, i: nat, level: nat, ghost s0: seq<bv64>)
    requires i < ENTRY_COUNT
    requires InMemory(s0, Visited(s0, f, level))
    requires MarkedUpTo(s0, ram[..], VisitedBelow(s0, f, level, i), f, i)
    modifies ram
    ensures MarkedUpTo(s0, ram[..], VisitedBelow(s0, f, level, i + 1), f, i + 1)
    decreases level, 0
  {
    var k := f * ENTRY_COUNT + i;
    var entry := ram[k];
    if entry != 0 {
      ghost var r0 := ram[..];
      MarkSlot(s0, r0, VisitedBelow(s0, f, level, i), f, i);
      ReadEntry(s0, r0, VisitedBelow(s0, f, level, i), f, i, level);
      ram[k] := WithUserAccess(entry);
      assert ram[..] == r0[k := Updated(r0[k])];
      if Descends(entry, level) {
        ghost var r1 := ram[..];
        DescendReady(s0, r1, f, i, level);
        SetupPageMap(ram, PagingPointer(entry), level - 1);
        DescendDone(s0, r1, ram[..], f, i, level);
      } else {
        NoDescent(s0, ram[..], f, i, level);
      }
    } else {
      ZeroSlot(s0, ram[..], f, i, level);
    }
  }

  /** After the walk, every word `w` keeps its frame address and all its other
      bits, stays zero exactly when it was zero, and has the U/S bit when it is a
      non-zero word of a visited table. */
  lemma MarkedGrantsUserAccess(s0: seq<bv64>, r: seq<bv64>, frames: set<nat>, w: nat)
    requires Marked(s0, r, frames) && w < |r|
    ensures w / ENTRY_COUNT in frames && r[w] != 0 ==> r[w] & USER_ACCESSIBLE == USER_ACCESSIBLE
    ensures r[w] & !USER_ACCESSIBLE == s0[w] & !USER_ACCESSIBLE
    ensures (r[w] == 0) == (s0[w] == 0)
  {
    UpdatedBits(s0[w]);
  }

  /** Updating a non-zero entry sets its U/S bit and keeps every other bit. */
  lemma UpdatedBits(entry: bv64)
    ensures entry != 0 ==> Updated(entry) & USER_ACCESSIBLE == USER_ACCESSIBLE
    ensures Updated(entry) & !USER_ACCESSIBLE == entry & !USER_ACCESSIBLE
  {
    OrUserBit(entry);
  }

  lemma OrUserBit(entry: bv64)
    ensures (entry | USER_ACCESSIBLE) & USER_ACCESSIBLE == USER_ACCESSIBLE
    ensures (entry | USER_ACCESSIBLE) & !USER_ACCESSIBLE == entry & !USER_ACCESSIBLE
  {
  }

  /** A second walk from the same root, over the memory the first one left,
      changes nothing: it visits the same tables and their entries are marked
      already. */
  lemma WalkIsIdempotent(s0: seq<bv64>, r1: seq<bv64>, r2: seq<bv64>, f: nat, level: nat)
    requires Marked(s0, r1, Visited(s0, f, level))
    requires Marked(r1, r2, Visited(r1, f, level))
    ensures r2 == r1
  {
    MarkedKeepsLinks(s0, r1, Visited(s0, f, level), 0, 0, level);
    VisitedKeepsUnderUpdate(r1, s0, f, level);
    forall w | 0 <= w < |r2| ensures r2[w] == r1[w] {
      UpdatedKeepsLinks(s0[w], level);
    }
  }

  /** The number of paging levels: five when 5-level paging is on, else four. */
  function PagingLevels(fiveLevel: bool): (n: nat)
    ensures n == 4 || n == 5
  {
    if fiveLevel then 5 else 4
  }

  /** `setup_paging` without the control registers: `pageMapAddress` is the root
      table's address from CR3, `fiveLevel` the 5-level paging flag of CR4. */
  method SetupPaging(ram: array<bv64>, pageMapAddress: bv64, fiveLevel: bool)
    requires InMemory(ram[..], Visited(ram[..], Frame(PagingPointer(pageMapAddress)), PagingLevels(fiveLevel)))
    modifies ram
    ensures Marked(old(ram[..]), ram[..], Visited(old(ram[..]), Frame(PagingPointer(pageMapAddress)), PagingLevels(fiveLevel)))
  {
    var level := if fiveLevel then 5 else 4;
    SetupPageMap(ram, PagingPointer(pageMapAddress), level);
  }
}
