# A verified model of the D3OS boot path, bump allocator, text terminal and syscall helpers

This project models four sequential parts of the D3OS kernel in Dafny, with
hardware access replaced by plain data, and proves what each of them promises.

- **Heap discovery at boot** (`BootMemory`, boot_memory.dfy). `start()` checks
  the Multiboot2 magic value and picks one memory map, in a fixed priority order:
  1. the UEFI map obtained by leaving the boot services, when they are still running;
  2. else the Multiboot2 memory map tag;
  3. else the Multiboot2 EFI memory map tag;
  4. else boot fails.

  Each map is scanned for its largest usable entry: `EfiConventionalMemory`
  for UEFI descriptors, type 1 "available RAM" for Multiboot2 entries. The
  scan starts from the first entry and replaces it only by a strictly larger
  one. The pure function `SelectHeapArea` states the outcome. The method
  `DiscoverHeap`, with the scans as loops, is proved equal to it.
- **The page-table walk of `setup_paging`** (`PageTable`, page_table.dfy).
  Physical memory is one array of 64-bit words. A 4 KiB-aligned table at
  address `p` is the 512 words starting at `p / 8`.
  - `SetupPageMap` is the recursive walk, with its `for` loop over the 512
    entries. One turn of that loop is the method `MarkEntry`, which writes the
    array in place and calls back into `SetupPageMap` for the next level down.
  - Its postcondition says that exactly the tables in `Visited` (a ghost
    function defining the walk's reach) have each non-zero entry given the U/S
    bit, and that nothing else changes.
  - The walk terminates because the level drops at each step. It needs no
    acyclicity assumption: a table reached twice, or a table pointing to
    itself, ends up the same, because marking is idempotent and does not change
    which links the walk follows.
  - The walk requires every table it reaches to lie inside the modelled memory
    array (`InMemory`); tables elsewhere in physical memory are outside the model.
- **`NvramAllocator`** (`Nvram`, nvram_allocator.dfy). A bump allocator with
  four fields.
  - Its transitions are pure functions on `AllocState`: `InitStep`,
    `AllocateStep` and `DeallocateStep`.
  - The class `NvramAllocator` updates its fields in place and is proved to
    follow those functions.
  - `Replay` and `Granted` serve a sequence of requests. They show that, while
    the live count stays positive, the blocks handed out lie in order inside the
    arena and never overlap.
- **The LFB text terminal** (`LfbTerminal`, lfb_terminal.dfy).
  - The class `Terminal` keeps the cursor and the list of calls it has made on
    the frame buffer.
  - `print_char` and `write_str` are proved against the pure cursor function
    `NextCursor` and the call list `PrintCharCalls`.
  - What `draw_char` reports for a character is an input.
- **Syscall helpers** (`Syscall`, syscall.dfy): the call numbering and
  `NUM_SYSCALLS`, `convert_syscall_codes_to_result`, and the padding of the
  argument slice to six registers.

`Wrappers` (wrappers.dfy) holds the `Option` and `Result` types.

Points where the model follows the code rather than a reading of its intent:

- A zero-size allocation is not a no-op. It succeeds whenever the aligned cursor
  is inside the arena, moves the cursor to that aligned address and counts one
  more live allocation, exactly as `allocate` does.
- The Multiboot2 heap end is `end_address()`, the first byte past the area.
  Both EFI forms compute the last byte of the area (`start + pages * 4096 - 1`).
  The two ends therefore differ by one in meaning.
- The boot path hands `(heap_start, heap_end)` to `kernel::allocator().init`,
  while `NvramAllocator::init` takes a start and a size. The kernel allocator is
  not part of this model, so the two are not connected here.

## Model

| member | source | states |
|---|---|---|
| BootMemory.EfiHeapArea | src/boot.rs:145-146 | the heap of a UEFI descriptor starts at its physical start and its end is inclusive: end - start + 1 is the page count times 4096 |
| BootMemory.MultibootHeapArea | src/boot.rs:162-163 | the heap of a Multiboot2 area starts at its base address and its end is exclusive: end - start is the area's length |
| BootMemory.LargestIndex | src/boot.rs:138-143 | the index the scan keeps after any prefix is a valid index of the non-empty map |
| BootMemory.LargestIndexPrefix | src/boot.rs:139-143 | after the first n entries, the kept index is 0 or an eligible entry larger than the first. No eligible entry seen is larger. Every eligible entry before it is strictly smaller, so ties keep the earliest |
| BootMemory.LargestIndexIsLargestChoice | src/boot.rs:153-160 | the full scan's result satisfies IsLargestChoice: it is the first entry or an eligible one larger than it, it is at least every eligible entry, and it is strictly larger than every earlier eligible entry |
| BootMemory.LargestChoiceUnique | src/boot.rs:171-175 | at most one index satisfies IsLargestChoice, so the declarative description determines the scan's choice |
| BootMemory.ScanLargest | src/boot.rs:168-175 | the loop returns None exactly for an empty map; otherwise it returns the LargestIndex choice, which is a largest choice |
| BootMemory.DiscoverHeap | src/boot.rs:110-181 | memory discovery with its loops gives exactly SelectHeapArea, every panic of the map selection included |
| BootMemory.InvalidMagicIsFatal | src/boot.rs:110-112 | any magic other than 0x36d76289 fails with InvalidMagic, whatever the tags |
| BootMemory.BootServicesMapWins | src/boot.rs:120-146 | with boot services not exited, the other map tags are irrelevant. A missing image handle tag, then a missing system table tag, then a null image handle, then a null system table is fatal, each with its own error. With usable handles an empty exit map is fatal, otherwise the heap is the inclusive area of a largest conventional descriptor. Success implies usable handles and a non-empty map |
| BootMemory.MultibootMapNext | src/boot.rs:149-163 | otherwise a present Multiboot2 map decides, whatever EFI map or exit map exists. Empty is fatal. Otherwise the heap is the exclusive area of a largest available entry |
| BootMemory.EfiMapLast | src/boot.rs:164-178 | failing both, the EFI memory map tag decides. Empty is fatal. Otherwise the heap is the inclusive area of a largest conventional descriptor |
| BootMemory.NoMapIsFatal | src/boot.rs:178-180 | with no usable tag, boot fails with NoMemoryInformation |
| PageTable.PagingPointer | src/boot.rs:387-389 | the table address taken from an entry is 4 KiB aligned and below 2^52 |
| PageTable.WithUserAccess | src/boot.rs:375-378 | `entry \| flags.bits()`, with USER_ACCESSIBLE inserted in the truncated flags, is `entry \| U/S`: the U/S bit is set and nothing else changes |
| PageTable.Updated | src/boot.rs:372-378 | a zero entry stays zero; a non-zero entry becomes `entry \| U/S` and stays non-zero |
| PageTable.UpdatedBits | src/boot.rs:375-378 | an updated non-zero entry has the U/S bit, and every other bit, the frame address included, is kept |
| PageTable.UpdatedKeepsLinks | src/boot.rs:374-382 | updating is idempotent, keeps whether the walk descends through the entry, and keeps the address it descends to |
| PageTable.LastLevelVisitsNothingBelow | src/boot.rs:380-382 | a level-1 table leads nowhere, so the walk's depth is bounded by its starting level |
| PageTable.VisitedKeepsUnderUpdate | src/boot.rs:371-385 | two memories that differ only by marking have the same walk, so a walk over partly marked memory visits what the original walk visits |
| PageTable.VisitedBelowGrows | src/boot.rs:372-384 | the tables reached through the first m entries are among those reached through the first n, for m ≤ n |
| PageTable.SetupPageMap | src/boot.rs:371-385 | afterwards, every word of a visited table is Updated of its old value, and every word outside the visited tables is unchanged |
| PageTable.MarkEntry | src/boot.rs:373-383 | one turn of the loop extends the marked part by entry i: a zero entry is left alone, and a non-zero one gets U/S. Every table reached through it is marked when the walk descends |
| PageTable.MarkedGrantsUserAccess | src/boot.rs:372-378 | after the walk, any word that is non-zero and in a visited table has U/S set. Any word keeps all its other bits, and is zero exactly when it was zero |
| PageTable.WalkIsIdempotent | src/boot.rs:371-385 | walking again from the same root over the result changes nothing |
| PageTable.PagingLevels | src/boot.rs:364 | the walk starts with 5 levels under 5-level paging, otherwise 4 |
| PageTable.SetupPaging | src/boot.rs:359-369 | the walk from the root table named by CR3 marks exactly the tables reachable within 4 or 5 levels |
| Nvram.AlignUp | os/kernel/src/memory/nvram_allocator.rs:37 | the aligned address is a multiple of align, not below the cursor, and less than one alignment above it |
| Nvram.Empty | os/kernel/src/memory/nvram_allocator.rs:17-24 | `new()` has all four fields zero and satisfies the invariant |
| Nvram.InitStep | os/kernel/src/memory/nvram_allocator.rs:26-30 | init puts the cursor at heap_start and sets heap_end to start + size, saturating at usize::MAX. The live count is untouched, and the invariant is established |
| Nvram.AllocateStep | os/kernel/src/memory/nvram_allocator.rs:34-50 | success exactly when the aligned start plus size neither overflows nor passes heap_end. The block is aligned, within one alignment of the cursor, and ends inside the arena. The cursor moves to its end and the count rises by one. Failure changes nothing. The invariant is kept |
| Nvram.DeallocateStep | os/kernel/src/memory/nvram_allocator.rs:52-59 | the count drops by one. The cursor returns to heap_start exactly when the count reaches zero and is unchanged otherwise. The invariant is kept |
| Nvram.GrantedBlocksAreOrdered | os/kernel/src/memory/nvram_allocator.rs:37-59 | while no deallocation empties the arena, the cursor never moves back and every block granted lies within the arena's used part. Each block ends before the next one starts, so no two overlap |
| Nvram.NvramAllocator.constructor | os/kernel/src/memory/nvram_allocator.rs:17-24 | the new object is Empty() and valid |
| Nvram.NvramAllocator.Init | os/kernel/src/memory/nvram_allocator.rs:26-30 | the fields become InitStep of the old ones, and the object is valid |
| Nvram.NvramAllocator.Allocate | os/kernel/src/memory/nvram_allocator.rs:34-50 | the result and new fields are those of AllocateStep, a granted address is never zero, and validity is kept |
| Nvram.NvramAllocator.Deallocate | os/kernel/src/memory/nvram_allocator.rs:52-59 | the new fields are DeallocateStep of the old ones, and validity is kept |
| Nvram.WorkedExample | os/kernel/src/memory/nvram_allocator.rs:26-59 | after init(0x100000, 0x10000), allocate(64, 16) yields 0x100000 and allocate(32, 32) yields 0x100040. Two deallocations put the cursor back at 0x100000 |
| LfbTerminal.NextCursor | src/library/graphic/lfb_terminal.rs:43-65 | an on-screen cursor stays on screen. A scroll leaves it at (0, rows-1). A newline goes to the next line's start. An undrawn character does not move it. A drawn one advances or wraps |
| LfbTerminal.PrintCharCalls | src/library/graphic/lfb_terminal.rs:43-69 | print_char makes two or three frame-buffer calls, three exactly when it scrolls. The last call draws the cursor glyph at the new position |
| LfbTerminal.CursorAfterAll | src/library/graphic/lfb_terminal.rs:76-80 | printing a whole string keeps an on-screen cursor on screen |
| LfbTerminal.CallsForAllCount | src/library/graphic/lfb_terminal.rs:76-80 | a string of n characters costs between 2n and 3n frame-buffer calls. For a non-empty string, the last call draws the white-on-black cursor at the final position |
| LfbTerminal.Terminal.Empty | src/library/graphic/lfb_terminal.rs:31-33 | `empty()` has every field zero and no calls made |
| LfbTerminal.Terminal.New | src/library/graphic/lfb_terminal.rs:35-41 | the grid is width/8 by height/16 cells and the cursor is at (0,0). The screen is cleared and the cursor drawn. A frame buffer of at least one glyph gives a valid terminal |
| LfbTerminal.Terminal.PrintChar | src/library/graphic/lfb_terminal.rs:43-69 | the grid is unchanged, the cursor becomes NextCursor, and the calls made are PrintCharCalls. Validity (non-empty grid, cursor on screen) is kept |
| LfbTerminal.Terminal.WriteStr | src/library/graphic/lfb_terminal.rs:76-82 | the characters are printed in order, white on black. The cursor and calls are those of CursorAfterAll and CallsForAll, and the result is always Ok |
| Syscall.Number | os/library/syscall/src/lib.rs:13-36 | a call's number is its position in the declaration order |
| Syscall.CallNumbers | os/library/syscall/src/lib.rs:15-38 | numbers run consecutively from Read = 0, NUM_SYSCALLS is 16, and exactly the real calls number below it |
| Syscall.ConvertSyscallCodesToResult | os/library/syscall/src/lib.rs:51-68 | the result is an error exactly when the `is_ok_f` predicate holds. Both branches are built from the unmodified (code, val) |
| Syscall.PadArguments | os/library/syscall/src/lib.rs:199-212 | more than six arguments is an error. Otherwise there are six registers: register i is args[i] for i below the argument count, and 0 after |
| Syscall.PaddingRoundTrip | os/library/syscall/src/lib.rs:207-212 | cutting the registers back to the argument count gives the arguments again, and padding the registers again changes nothing |

## Left out

- Hardware access in src/boot.rs is not modelled: the `asm!` reading EAX/EBX, `clear_bss`, the GDT/TSS/segment setup, and the CR0 write-protect toggle. The CR3 root address and the CR4 5-level flag are parameters of `SetupPaging`.
- The rest of `start()` after memory discovery is not modelled: serial, framebuffer, ACPI, interrupts, timer, keyboard, scheduler, threads and the banner. All of it is I/O or foreign calls.
- `BootInformation::load` and `exit_boot_services` are library and firmware calls. The tags they yield and the UEFI map that leaving the boot services returns are inputs, so the panic when `BootInformation::load` fails (src/boot.rs:115) is not modelled. `Handle::from_ptr`/`SystemTable::from_ptr` failing is modelled as a zero pointer.
- `kernel::init_efi_system_table` and `set_image_handle` are left out, because they only record firmware pointers.
- BootMemory.SelectHeapArea: the heap start and end use unbounded integers, so a 64-bit overflow of `start + pages * 4096 - 1` is not modelled. Nor is its underflow: a chosen EFI descriptor at address 0 with 0 pages gives an end of -1 in the model, where src/boot.rs:146 and :178 panic or wrap.
- The heap initialisation at src/boot.rs:194 goes to `kernel::allocator()`, which is not part of this model.
- Nvram.AlignUp: `align_up` is not part of this model. It is specified as the smallest multiple of the power-of-two alignment that is not below its input. A wrap-around inside it is not modelled: the rounded address plus the size is checked against `usize::MAX` instead.
- Nvram.NvramAllocator.Allocate: the `NonNull::new(..).unwrap()` panic for address zero is excluded by a precondition. The panic needs a cursor of zero, which happens before `init` and whenever heap_start is 0 (after `init(0, ..)` and after every reset of such an allocator); the first allocation that fits in that state would panic.
- Nvram.NvramAllocator.Allocate: the live count is an unbounded natural number, so an overflow of `allocations += 1` after 2^64 live allocations is not modelled.
- Nvram.NvramAllocator.Deallocate: a call with a live count of zero is excluded by the precondition `allocations > 0` (also on `DeallocateStep`). The safety contract of `unsafe fn deallocate` makes the block live, so the count is positive. In the source, `allocations -= 1` at zero panics in a debug build and wraps to usize::MAX in a release build, after which the reset to heap_start no longer happens; neither outcome is modelled.
- `Locked` and `lock()` are a spin-lock wrapper. The allocator is modelled as a single-owner object, so concurrent callers are not modelled.
- `qemu_exit` is port I/O.
- LfbTerminal: pixel drawing, `scroll_up`, the colour values and the font are not modelled. Frame-buffer calls are recorded as a list, and `draw_char`'s success flag for a printed character is an input.
- LfbTerminal: `lfb::CHAR_WIDTH` and `lfb::CHAR_HEIGHT` are taken as 8 and 16. The lfb module is not part of this model.
- LfbTerminal.Terminal.PrintChar: requires a grid of at least one row and one column. With zero rows, as for `empty()`, `rows - 1` underflows and panics. With zero columns the cursor cannot be on screen.
- LfbTerminal.Terminal.PrintChar: requires the pixel coordinates to fit 32 bits; the u32 products are not modelled as wrapping.
- The global `WRITER` mutex, `initialize`, `get_writer` and the `print!`/`println!` macros are global locking and formatting, and are left out.
- `syscall0` to `syscall5` and the `asm!` block of `syscall` are the register ABI transport. Only the argument check and padding of `syscall` are modelled. The two return registers are not.
- The commented-out block at the end of os/library/syscall/src/lib.rs is not compiled, so it is not modelled.
- os/kernel/src/memory/mod.rs holds only module declarations and constants, so there is nothing to model there.
