/** The user-mode system-call helpers of os/library/syscall/src/lib.rs: the call
    numbers, the conversion of the two return registers into a `Result`, and the
    padding of the argument slice to the six argument registers. The `syscall`
    instruction itself (the `asm!` blocks) is not part of this model. */
module Syscall {
  import opened Wrappers

  /** `SystemCall`, in declaration order; `LastEntryMarker` is not a call. */
  datatype SystemCall =
    | Read | Write | MapUserHeap | ProcessExecuteBinary | ProcessId | ProcessExit
    | ThreadCreate | ThreadId | ThreadSwitch | ThreadSleep | ThreadJoin | ThreadExit
    | GetSystemTime | GetDate | SetDate | Mkentry
    | LastEntryMarker

  /** The variants as they are declared. Rust numbers the variants of a
      `#[repr(usize)]` enum from the explicit `Read = 0` onwards, one by one. */
  const DECLARED: seq<SystemCall> := [
    Read, Write, MapUserHeap, ProcessExecuteBinary, ProcessId, ProcessExit,
    ThreadCreate, ThreadId, ThreadSwitch, ThreadSleep, ThreadJoin, ThreadExit,
    GetSystemTime, GetDate, SetDate, Mkentry,
    LastEntryMarker
  ]

  /** `call as usize`: the discriminant, which is the variant's declaration index. */
  function Number(call: SystemCall): (n: Usize)
    ensures n < |DECLARED| && DECLARED[n] == call
  {
    match call
    case Read => 0
    case Write => 1
    case MapUserHeap => 2
    case ProcessExecuteBinary => 3
    case ProcessId => 4
    case ProcessExit => 5
    case ThreadCreate => 6
    case ThreadId => 7
    case ThreadSwitch => 8
    case ThreadSleep => 9
    case ThreadJoin => 10
    case ThreadExit => 11
    case GetSystemTime => 12
    case GetDate => 13
    case SetDate => 14
    case Mkentry => 15
    case LastEntryMarker => 16
  }

  /** `NUM_SYSCALLS`: the number of the end marker. */
  const NUM_SYSCALLS: Usize := Number(LastEntryMarker)

  /** The numbers run consecutively from `Read = 0` to `Mkentry = 15`, so there are
      sixteen calls, and exactly the real calls have a number below `NUM_SYSCALLS`. */
  lemma CallNumbers()
    ensures NUM_SYSCALLS == 16
    ensures forall i :: 0 <= i < |DECLARED| ==> Number(DECLARED[i]) == i
    ensures forall c: SystemCall :: c != LastEntryMarker <==> Number(c) < NUM_SYSCALLS
  {
    forall i | 0 <= i < |DECLARED| ensures Number(DECLARED[i]) == i {
      var n := Number(DECLARED[i]);
      assert DECLARED[n] == DECLARED[i];
      DeclaredDistinct(n, i);
    }
  }

  lemma DeclaredDistinct(i: nat, j: nat)
    requires i < |DECLARED| && j < |DECLARED| && DECLARED[i] == DECLARED[j]
    ensures i == j
  {
  }

  /** `convert_syscall_codes_to_result`: the result is an error exactly when the
      predicate passed as `is_ok_f` holds (despite its name), and each branch is
      built from the unmodified pair `(code, val)`. */
  function ConvertSyscallCodesToResult<T, E>(
    code: Usize, val: Usize,
    isOkF: (Usize, Usize) -> bool,
    okF: (Usize, Usize) -> T,
    errF: (Usize, Usize) -> E): (r: Result<T, E>)
    ensures r.Failure? <==> isOkF(code, val)
    ensures r.Failure? ==> r.error == errF(code, val)
    ensures r.Success? ==> r.value == okF(code, val)
  {
    if isOkF(code, val) then Failure(errF(code, val)) else Success(okF(code, val))
  }

  datatype SyscallError = TooManyArguments

  /** `*args.get(i).unwrap_or(&0usize)`. */
  function ArgOrZero(args: seq<Usize>, i: nat): Usize
  {
    if i < |args| then args[i] else 0
  }

  /** The six argument registers `syscall` loads from `args`; more than six
      arguments panic, which is the error here. */
  function PadArguments(args: seq<Usize>): (r: Result<seq<Usize>, SyscallError>)
    ensures r.Failure? <==> |args| > 6
    ensures r.Success? ==> |r.value| == 6
    ensures r.Success? ==> forall i :: 0 <= i < |args| ==> r.value[i] == args[i]
    ensures r.Success? ==> forall i :: |args| <= i < 6 ==> r.value[i] == 0
  {
    if |args| > 6 then Failure(TooManyArguments)
    else Success([ArgOrZero(args, 0), ArgOrZero(args, 1), ArgOrZero(args, 2),
                  ArgOrZero(args, 3), ArgOrZero(args, 4), ArgOrZero(args, 5)])
  }

  /** Padding loses nothing: cutting the six registers back to the number of
      arguments gives the arguments again, and padding that prefix once more gives
      the same registers. */
  lemma PaddingRoundTrip(args: seq<Usize>)
    requires |args| <= 6
    ensures PadArguments(args).Success?
    ensures PadArguments(args).value[..|args|] == args
    ensures PadArguments(PadArguments(args).value) == PadArguments(args)
  {
    var regs := PadArguments(args).value;
    assert regs[..|args|] == args;
    assert PadArguments(regs).value == regs;
  }
}
