/** Discovery of the kernel heap region in `start()` of src/boot.rs.

    The Multiboot2 boot information is given as the set of tags the kernel looks
    at, each optional. When the boot loader has left the UEFI boot services
    running, the kernel leaves them itself and receives a UEFI memory map; that
    map, which the firmware produces, is an input too. Every memory map is a
    sequence of entries; the kernel keeps the largest entry of the usable type,
    starting from the first entry and replacing it only by a strictly larger one. */
module BootMemory {
  import opened Wrappers

  /** The value a Multiboot2 boot loader leaves in EAX (section 3.3 of the
      Multiboot2 specification). */
  const MULTIBOOT2_MAGIC: nat := 0x36d7_6289

  /** `EfiConventionalMemory` in the UEFI memory type enumeration. */
  const EFI_CONVENTIONAL: nat := 7

  /** Type 1, "available RAM", of a Multiboot2 memory map entry. */
  const MULTIBOOT_AVAILABLE: nat := 1

  /** UEFI pages are 4 KiB. */
  const EFI_PAGE_SIZE: nat := 4096

  /** An `EFI_MEMORY_DESCRIPTOR`: type, physical start and number of pages. */
  datatype EfiDescriptor = EfiDescriptor(ty: nat, physStart: nat, pageCount: nat)

  /** An entry of the Multiboot2 memory map tag: base address, length and type. */
  datatype MemoryArea = MemoryArea(baseAddr: nat, length: nat, typ: nat)

  /** The boot information tags consulted. `efiImageHandle` and `efiSystemTable`
      are the 64-bit EFI image handle and system table tags, by their pointer. */
  datatype BootInfo = BootInfo(
    efiBsNotExited: bool,
    efiImageHandle: Option<nat>,
    efiSystemTable: Option<nat>,
    memoryMap: Option<seq<MemoryArea>>,
    efiMemoryMap: Option<seq<EfiDescriptor>>)

  /** Where a memory map came from. */
  datatype MapSource = BootServicesMap | MultibootMap | EfiMap

  /** The panics of the memory discovery. */
  datatype BootError =
    | InvalidMagic
    | NoImageHandle
    | NoSystemTable
    | NullImageHandle
    | NullSystemTable
    | EmptyMemoryMap(source: MapSource)
    | NoMemoryInformation

  /** `(heap_start, heap_end)`. */
  datatype HeapArea = HeapArea(start: int, end: int)

  function IsConventional(d: EfiDescriptor): bool { d.ty == EFI_CONVENTIONAL }
  function Pages(d: EfiDescriptor): nat { d.pageCount }
  function IsAvailable(a: MemoryArea): bool { a.typ == MULTIBOOT_AVAILABLE }
  function Size(a: MemoryArea): nat { a.length }

  /** The heap area of an EFI descriptor: its end is the last byte, inclusive. */
  function EfiHeapArea(d: EfiDescriptor): (h: HeapArea)
    ensures h.start == d.physStart
    ensures h.end - h.start + 1 == d.pageCount * EFI_PAGE_SIZE
  {
    HeapArea(d.physStart, d.physStart + d.pageCount * EFI_PAGE_SIZE - 1)
  }

  /** The heap area of a Multiboot2 entry: `end_address()` is the first byte past
      the area, so this end is exclusive. */
  function MultibootHeapArea(a: MemoryArea): (h: HeapArea)
    ensures h.start == a.baseAddr
    ensures h.end - h.start == a.length
  {
    HeapArea(a.baseAddr, a.baseAddr + a.length)
  }

  /** The index kept after the scan has looked at the first `n` entries of `m`. */
  function LargestIndex<T>(m: seq<T>, eligible: T -> bool, size: T -> nat, n: nat): (k: nat)
    requires 0 < |m| && n <= |m|
    ensures k < |m|
    decreases n
  {
    if n == 0 then 0
    else
      var k := LargestIndex(m, eligible, size, n - 1);
      if eligible(m[n - 1]) && size(m[n - 1]) > size(m[k]) then n - 1 else k
  }

  /** What the scan promises about the index `k` it keeps: no entry of the
      eligible type is larger, every eligible entry before it is strictly smaller,
      and it is the first entry unless it is eligible and larger than the first. */
  predicate IsLargestChoice<T>(m: seq<T>, eligible: T -> bool, size: T -> nat, k: nat)
  {
    && k < |m|
    && (k == 0 || (eligible(m[k]) && size(m[k]) > size(m[0])))
    && (forall j :: 0 <= j < |m| && eligible(m[j]) ==> size(m[j]) <= size(m[k]))
    && (forall j :: 0 <= j < k && eligible(m[j]) ==> size(m[j]) < size(m[k]))
  }

  lemma {:induction false} LargestIndexPrefix<T>(m: seq<T>, eligible: T -> bool, size: T -> nat, n: nat)
    requires 0 < |m| && n <= |m|
    ensures var k := LargestIndex(m, eligible, size, n);
      && (k == 0 || (k < n && eligible(m[k]) && size(m[k]) > size(m[0])))
      && (forall j :: 0 <= j < n && eligible(m[j]) ==> size(m[j]) <= size(m[k]))
      && (forall j :: 0 <= j < k && eligible(m[j]) ==> size(m[j]) < size(m[k]))
    decreases n
  {
    if n > 0 {
      LargestIndexPrefix(m, eligible, size, n - 1);
    }
  }

  /** The scan over the whole map keeps a largest choice. */
  lemma LargestIndexIsLargestChoice<T>(m: seq<T>, eligible: T -> bool, size: T -> nat)
    requires 0 < |m|
    ensures IsLargestChoice(m, eligible, size, LargestIndex(m, eligible, size, |m|))
  {
    LargestIndexPrefix(m, eligible, size, |m|);
  }

  /** A largest choice is unique, so it pins down the entry the scan keeps. */
  lemma LargestChoiceUnique<T>(m: seq<T>, eligible: T -> bool, size: T -> nat, k1: nat, k2: nat)
    requires IsLargestChoice(m, eligible, size, k1) && IsLargestChoice(m, eligible, size, k2)
    ensures k1 == k2
  {
    if k1 != 0 && k2 != 0 {
      assert size(m[k1]) <= size(m[k2]) && size(m[k2]) <= size(m[k1]);
    }
  }

  /** One of the three scans of `start()`: seed with the first entry, then replace
      it by every eligible entry that is strictly larger. An empty map has no
      first entry. */
  method ScanLargest<T>(m: seq<T>, eligible: T -> bool, size: T -> nat) returns (r: Option<nat>)
    ensures r.None? <==> |m| == 0
    ensures r.Some? ==> r.value == LargestIndex(m, eligible, size, |m|)
    ensures r.Some? ==> IsLargestChoice(m, eligible, size, r.value)
  {
    if |m| == 0 {
      return None;
    }
    var best := 0;
    for i := 0 to |m|
      invariant best == LargestIndex(m, eligible, size, i)
    {
      if eligible(m[i]) && size(m[i]) > size(m[best]) {
        best := i;
      }
    }
    LargestIndexIsLargestChoice(m, eligible, size);
    return Some(best);
  }

  /** The heap region `start()` settles on, given the boot loader's magic value, the
      boot information and the memory map that leaving the boot services yields. */
  function SelectHeapArea(magic: nat, info: BootInfo, exitMap: seq<EfiDescriptor>): Result<HeapArea, BootError>
  {
    if magic != MULTIBOOT2_MAGIC then Failure(InvalidMagic)
    else if info.efiBsNotExited then
      if info.efiImageHandle.None? then Failure(NoImageHandle)
      else if info.efiSystemTable.None? then Failure(NoSystemTable)
      else if info.efiImageHandle.value == 0 then Failure(NullImageHandle)
      else if info.efiSystemTable.value == 0 then Failure(NullSystemTable)
      else if |exitMap| == 0 then Failure(EmptyMemoryMap(BootServicesMap))
      else Success(EfiHeapArea(exitMap[LargestIndex(exitMap, IsConventional, Pages, |exitMap|)]))
    else if info.memoryMap.Some? then
      var areas := info.memoryMap.value;
      if |areas| == 0 then Failure(EmptyMemoryMap(MultibootMap))
      else Success(MultibootHeapArea(areas[LargestIndex(areas, IsAvailable, Size, |areas|)]))
    else if info.efiMemoryMap.Some? then
      var descs := info.efiMemoryMap.value;
      if |descs| == 0 then Failure(EmptyMemoryMap(EfiMap))
      else Success(EfiHeapArea(descs[LargestIndex(descs, IsConventional, Pages, |descs|)]))
    else Failure(NoMemoryInformation)
  }

  /** Memory discovery as `start()` performs it, with the three scans as loops. */
  method DiscoverHeap(magic: nat, info: BootInfo, exitMap: seq<EfiDescriptor>) returns (r: Result<HeapArea, BootError>)
    ensures r == SelectHeapArea(magic, info, exitMap)
  {
    if magic != MULTIBOOT2_MAGIC {
      return Failure(InvalidMagic);
    }
    if info.efiBsNotExited {
      if info.efiImageHandle.None? {
        return Failure(NoImageHandle);
      }
      if info.efiSystemTable.None? {
        return Failure(NoSystemTable);
      }
      if info.efiImageHandle.value == 0 {
        return Failure(NullImageHandle);
      }
      if info.efiSystemTable.value == 0 {
        return Failure(NullSystemTable);
      }
      var k := ScanLargest(exitMap, IsConventional, Pages);
      if k.None? {
        return Failure(EmptyMemoryMap(BootServicesMap));
      }
      return Success(EfiHeapArea(exitMap[k.value]));
    } else if info.memoryMap.Some? {
      var areas := info.memoryMap.value;
      var k := ScanLargest(areas, IsAvailable, Size);
      if k.None? {
        return Failure(EmptyMemoryMap(MultibootMap));
      }
      return Success(MultibootHeapArea(areas[k.value]));
    } else if info.efiMemoryMap.Some? {
      var descs := info.efiMemoryMap.value;
      var k := ScanLargest(descs, IsConventional, Pages);
      if k.None? {
        return Failure(EmptyMemoryMap(EfiMap));
      }
      return Success(EfiHeapArea(descs[k.value]));
    } else {
      return Failure(NoMemoryInformation);
    }
  }

  /** A wrong magic value is fatal whatever the tags say. */
  lemma InvalidMagicIsFatal(magic: nat, info: BootInfo, exitMap: seq<EfiDescriptor>)
    requires magic != MULTIBOOT2_MAGIC
    ensures SelectHeapArea(magic, info, exitMap) == Failure(InvalidMagic)
  {
  }

  /** Both 64-bit EFI handle tags are present and hold non-null pointers. */
  predicate HandlesUsable(info: BootInfo)
  {
    && info.efiImageHandle.Some? && info.efiImageHandle.value != 0
    && info.efiSystemTable.Some? && info.efiSystemTable.value != 0
  }

  /** With the boot services still running, the map obtained by leaving them is
      used, whatever other maps are present. The image handle tag, then the
      system table tag, must be present, and then each must hold a non-null
      pointer; the first of these four checks that fails is fatal. With usable
      handles an empty map is fatal, otherwise its largest conventional entry
      gives the heap. */
  lemma BootServicesMapWins(magic: nat, info: BootInfo, exitMap: seq<EfiDescriptor>)
    requires magic == MULTIBOOT2_MAGIC && info.efiBsNotExited
    ensures forall mm, em :: SelectHeapArea(magic, info.(memoryMap := mm, efiMemoryMap := em), exitMap)
                             == SelectHeapArea(magic, info, exitMap)
    ensures info.efiImageHandle.None? ==> SelectHeapArea(magic, info, exitMap) == Failure(NoImageHandle)
    ensures info.efiImageHandle.Some? && info.efiSystemTable.None? ==>
      SelectHeapArea(magic, info, exitMap) == Failure(NoSystemTable)
    ensures info.efiImageHandle == Some(0) && info.efiSystemTable.Some? ==>
      SelectHeapArea(magic, info, exitMap) == Failure(NullImageHandle)
    ensures info.efiImageHandle.Some? && info.efiImageHandle.value != 0 && info.efiSystemTable == Some(0) ==>
      SelectHeapArea(magic, info, exitMap) == Failure(NullSystemTable)
    ensures HandlesUsable(info) && |exitMap| == 0 ==>
      SelectHeapArea(magic, info, exitMap) == Failure(EmptyMemoryMap(BootServicesMap))
    ensures HandlesUsable(info) && |exitMap| > 0 ==> exists k: nat ::
      && IsLargestChoice(exitMap, IsConventional, Pages, k)
      && SelectHeapArea(magic, info, exitMap) == Success(EfiHeapArea(exitMap[k]))
    ensures SelectHeapArea(magic, info, exitMap).Success? ==> HandlesUsable(info) && |exitMap| > 0
  {
    if HandlesUsable(info) && |exitMap| > 0 {
      LargestIndexIsLargestChoice(exitMap, IsConventional, Pages);
    }
  }

  /** Otherwise a Multiboot2 memory map is used when present, whatever EFI map is
      present too; an empty one is fatal, otherwise its largest available entry
      gives the heap. */
  lemma MultibootMapNext(magic: nat, info: BootInfo, exitMap: seq<EfiDescriptor>)
    requires magic == MULTIBOOT2_MAGIC && !info.efiBsNotExited && info.memoryMap.Some?
    ensures forall em, x :: SelectHeapArea(magic, info.(efiMemoryMap := em), x) == SelectHeapArea(magic, info, exitMap)
    ensures var areas := info.memoryMap.value;
      && (|areas| == 0 ==> SelectHeapArea(magic, info, exitMap) == Failure(EmptyMemoryMap(MultibootMap)))
      && (|areas| > 0 ==> exists k: nat ::
           && IsLargestChoice(areas, IsAvailable, Size, k)
           && SelectHeapArea(magic, info, exitMap) == Success(MultibootHeapArea(areas[k])))
  {
    var areas := info.memoryMap.value;
    if |areas| > 0 {
      LargestIndexIsLargestChoice(areas, IsAvailable, Size);
    }
  }

  /** Failing both, the EFI memory map tag is used; an empty one is fatal,
      otherwise its largest conventional entry gives the heap. */
  lemma EfiMapLast(magic: nat, info: BootInfo, exitMap: seq<EfiDescriptor>)
    requires magic == MULTIBOOT2_MAGIC && !info.efiBsNotExited && info.memoryMap.None? && info.efiMemoryMap.Some?
    ensures forall x :: SelectHeapArea(magic, info, x) == SelectHeapArea(magic, info, exitMap)
    ensures var descs := info.efiMemoryMap.value;
      && (|descs| == 0 ==> SelectHeapArea(magic, info, exitMap) == Failure(EmptyMemoryMap(EfiMap)))
      && (|descs| > 0 ==> exists k: nat ::
           && IsLargestChoice(descs, IsConventional, Pages, k)
           && SelectHeapArea(magic, info, exitMap) == Success(EfiHeapArea(descs[k])))
  {
    var descs := info.efiMemoryMap.value;
    if |descs| > 0 {
      LargestIndexIsLargestChoice(descs, IsConventional, Pages);
    }
  }

  /** With no memory description at all, boot cannot go on. */
  lemma NoMapIsFatal(magic: nat, info: BootInfo, exitMap: seq<EfiDescriptor>)
    requires magic == MULTIBOOT2_MAGIC && !info.efiBsNotExited && info.memoryMap.None? && info.efiMemoryMap.None?
    ensures SelectHeapArea(magic, info, exitMap) == Failure(NoMemoryInformation)
  {
  }
}
