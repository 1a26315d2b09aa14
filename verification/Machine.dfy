/** Word sizes, page sizes and the result types shared by every component. */
module Machine {

  const PAGE_SIZE: nat := 4096
  const U64_MAX: nat := 0xffff_ffff_ffff_ffff

  /** First byte after user space, and the first page and the end of the process window. */
  const USER_SPACE_END: nat := 0x8000_0000_0000
  const WINDOW_PAGE: nat := 0x4_0000_0000
  const WINDOW_END_PAGE: nat := 0x8_0000_0000

  /** First page of the stack slots, at the top of the window. */
  const STACK_REGION_PAGE: nat := 0x7_ffff_0000

  /** Page and frame numbers whose byte address fits in 64 bits are below this. */
  const PAGE_NUMBER_LIMIT: nat := 0x10_0000_0000_0000

  datatype Option<+T> = None | Some(value: T)

  /** Why the kernel stops: the assertions and `expect` calls that the modelled operations can
      reach. An assertion that is not among them is a precondition or a Dafny assertion. */
  datatype PanicReason =
    | TrackingCapacityExhausted
    | OutOfFrames
    | NoFrameRun(pages: nat)
    | PageAlreadyMapped
    | PageInStackRegion
    | FrameOwnerMismatch
    | StackOverflow
    | HeapStartTooHigh

  /** The value of an operation, or the panic that ended the run. */
  datatype Outcome<+T> = Done(value: T) | Panic(reason: PanicReason) {
    predicate IsFailure() {
      Panic?
    }

    function PropagateFailure<U>(): Outcome<U>
      requires Panic?
    {
      Panic(reason)
    }

    function Extract(): T
      requires Done?
    {
      value
    }
  }

  function Min(a: int, b: int): int {
    if a <= b then a else b
  }

  function Max(a: int, b: int): int {
    if a >= b then a else b
  }

  function SaturatingAdd(a: nat, b: nat): nat {
    Min(a + b, U64_MAX)
  }

  /** Page number one past a range, absent when its byte address overflows 64 bits. */
  function CheckedEnd(start: nat, pages: nat): Option<nat> {
    if start + pages < PAGE_NUMBER_LIMIT then Some(start + pages) else None
  }

  lemma AppendAssociates<T>(a: seq<T>, b: seq<T>, c: seq<T>)
    ensures a + (b + c) == a + b + c
  {
  }
}
