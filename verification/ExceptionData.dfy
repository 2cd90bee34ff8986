/** Data of the structured exception handling runtime: protected sections, handler
    addresses, the exception mode, call frames and the part of the virtual machine
    that the two-pass engine reads and writes. */
module ExceptionData {
  import opened Wrappers

  /** A half-open range of instruction offsets. */
  datatype Range = Range(start: nat, end: nat) {
    predicate Contains(ip: nat) {
      start <= ip < end
    }
  }

  type TypeId = nat

  datatype ObjectRef = Null | Ref(id: nat)

  datatype HandlerKind = Catch(t: TypeId) | Filter(clauseOffset: nat) | Finally | Fault {
    predicate Catches() {
      Catch? || Filter?
    }
  }

  datatype Handler = Handler(instructions: Range, kind: HandlerKind)

  /** A try block together with the handlers that share it. */
  datatype Section = Section(instructions: Range, handlers: seq<Handler>)

  /** A place in the handler space: call frame, section of its method, handler of that section. */
  datatype HandlerAddress = HandlerAddress(frame: nat, section: nat, handler: nat)

  datatype UnwindTarget = ToHandler(address: HandlerAddress) | ToInstruction(ip: nat)

  datatype FilterState = FilterState(exception: ObjectRef, handler: HandlerAddress,
                                     originalIp: nat, originalStackHeight: nat)

  datatype SearchState = SearchState(exception: ObjectRef, cursor: HandlerAddress,
                                     nested: Option<FilterState>)

  datatype UnwindState = UnwindState(exception: Option<ObjectRef>, target: UnwindTarget,
                                     cursor: HandlerAddress, nested: Option<FilterState>)

  datatype Mode =
    | Idle
    | Throwing(exception: ObjectRef, preserveTrace: bool)
    | Searching(search: SearchState)
    | Filtering(filter: FilterState)
    | Unwinding(unwind: UnwindState)
    | ExecutingHandler(unwind: UnwindState)

  datatype Failure = InvalidHandle | NoDescription | TypeTestFailed | NoExceptionType | InvalidCil

  /** `Panic` stands for an abort of the host process (an out-of-bounds index, a failed `expect`). */
  datatype StepResult =
    Continue | Return | MethodThrew(exception: ObjectRef) | Exception | Error(failure: Failure) | Panic

  datatype StackValue = ObjectValue(o: ObjectRef) | Scalar(bits: nat)

  /** Where a frame's arguments and its own operands begin on the shared evaluation stack. */
  datatype BasePointer = BasePointer(arguments: nat, stack: nat)

  datatype Frame = Frame(ip: nat, stackHeight: nat, base: BasePointer, sections: seq<Section>,
                         exceptionStack: seq<ObjectRef>, methodId: nat, isCctor: bool)

  /** The state the engine works on. `pendingUnwinds` holds handler unwinds set aside by `leave`. */
  datatype Vm = Vm(frames: seq<Frame>, suspendedFrames: seq<Frame>,
                   stack: seq<StackValue>, suspendedStack: seq<StackValue>,
                   mode: Mode, pendingUnwinds: seq<UnwindState>)

  /** Questions answered by the rest of the virtual machine. `describe` gives the runtime type of an
      object, `isA` decides assignability, `wrap` allocates the TypeInitializationException of a
      failed type initializer. `None` is a failure of the host operation. */
  datatype Host = Host(describe: nat -> Option<TypeId>, isA: (TypeId, TypeId) -> Option<bool>,
                       hasExceptionType: bool, wrap: (nat, ObjectRef) -> Option<ObjectRef>)

  /** The largest instruction index; `ret` and nested-filter unwinds use it for "leave the frame". */
  const LEAVE_FRAME: nat := 0xFFFF_FFFF_FFFF_FFFF

  function Last<T>(s: seq<T>): (x: T)
    requires |s| > 0
  {
    s[|s| - 1]
  }

  /** The first `n` elements, or all of them when there are fewer. */
  function Truncate<T>(s: seq<T>, n: nat): (r: seq<T>)
    ensures |r| <= n && r <= s
  {
    if n <= |s| then s[..n] else s
  }

  /** Removes the last `n` elements; removing from an empty sequence does nothing. */
  function DropLast<T>(s: seq<T>, n: nat): (r: seq<T>)
    ensures r <= s && |r| == if n <= |s| then |s| - n else 0
  {
    if n <= |s| then s[..|s| - n] else []
  }
}
