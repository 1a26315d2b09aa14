/** Reading a prepared stack with the `execve` reader gives back what was placed on it. */
module StackRoundTrip {
  import opened Machine
  import opened LittleEndian
  import opened StackImage
  import opened EntryReader
  import UserStackPages

  /** User memory shows the stack bytes at their addresses. */
  ghost predicate Shows(memory: UserMemory, stack: Bytes, base: nat) {
    forall a :: base <= a < base + |stack| ==> a in memory && memory[a] == stack[a - base]
  }

  /** Every string starts far enough below the end of user space for the reader's range check. */
  predicate BelowEnd(stack: Bytes, base: nat) {
    0 < base && base + |stack| + MAX_STRING_BYTES <= USER_SPACE_END
  }

  lemma SlotReads(memory: UserMemory, stack: Bytes, base: nat, place: nat, words: seq<nat>, index: nat)
    requires Shows(memory, stack, base) && BelowEnd(stack, base) && base <= place
    requires WordsAt(stack, place - base, words) && index < |words|
    ensures ReadSlot(memory, place, index) == Ok(words[index])
  {
    var offset := place - base + POINTER_SIZE * index;
    assert WordAt(stack, place - base + POINTER_SIZE * index, words[index]);
    assert WordBytes(memory, base + offset) == stack[offset..offset + POINTER_SIZE];
  }

  lemma ValueReads(memory: UserMemory, stack: Bytes, base: nat, pointer: nat, value: Bytes, copied: nat)
    requires Shows(memory, stack, base) && BelowEnd(stack, base) && base <= pointer
    requires StringAt(stack, pointer - base, value) && 0 !in value && copied + |value| + 1 <= MAX_STRING_BYTES
    ensures ReadValue(memory, pointer, copied) == Ok((value, copied + |value| + 1))
  {
    forall a | pointer <= a < pointer + |value| ensures a in memory && memory[a] == value[a - pointer] {
      assert stack[pointer - base..pointer - base + |value|][a - pointer] == value[a - pointer];
    }
    ReadStringFinds(memory, pointer, MAX_STRING_BYTES, value);
  }

  lemma {:induction false} VectorReads(memory: UserMemory, stack: Bytes, base: nat, place: nat,
                                       pointers: seq<nat>, values: seq<Bytes>, index: nat, copied: nat)
    requires Shows(memory, stack, base) && BelowEnd(stack, base) && 0 < base <= place
    requires StringsAt(stack, base, place, pointers, values) && WordsAt(stack, place - base, pointers + [0])
    requires NulFree(values) && index <= |values| <= MAX_ENTRIES
    requires copied + StringBytes(values[index..]) <= MAX_STRING_BYTES
    ensures ReadFrom(memory, place, MAX_ENTRIES, index, copied) == Ok((values[index..], copied + StringBytes(values[index..])))
    decreases |values| - index
  {
    hide Shows, BelowEnd, WordsAt, StringsAt, StringAt, ReadSlot, ReadValue, NulFree;
    StringsEntry(stack, base, place, pointers, values, index);
    SlotReads(memory, stack, base, place, pointers + [0], index);
    StringBytesSuffix(values, index);
    if index < |values| {
      ValueReads(memory, stack, base, pointers[index], values[index], copied);
      VectorReads(memory, stack, base, place, pointers, values, index + 1, copied + |values[index]| + 1);
      assert values[index..] == [values[index]] + values[index + 1..];
    }
  }

  lemma StringsEntry(stack: Bytes, base: nat, place: nat, pointers: seq<nat>, values: seq<Bytes>, index: nat)
    requires StringsAt(stack, base, place, pointers, values) && NulFree(values) && index <= |values|
    ensures |pointers| == |values|
    ensures index < |values| ==>
              base <= pointers[index] && StringAt(stack, pointers[index] - base, values[index]) && 0 !in values[index]
  {
  }

  lemma HeldVectorReads(memory: UserMemory, stack: Bytes, base: nat, place: nat, values: seq<Bytes>, copied: nat)
    requires Shows(memory, stack, base) && BelowEnd(stack, base) && Holds(stack, base, place, values)
    requires NulFree(values) && |values| <= MAX_ENTRIES && copied + StringBytes(values) <= MAX_STRING_BYTES
    ensures ReadVector(memory, place, MAX_ENTRIES, copied) == Ok((values, copied + StringBytes(values)))
  {
    hide Shows, WordsAt, StringsAt, ReadFrom, NulFree;
    var pointers: seq<nat> :| StringsAt(stack, base, place, pointers, values) && WordsAt(stack, place - base, pointers + [0]);
    assert values[0..] == values;
    VectorReads(memory, stack, base, place, pointers, values, 0, copied);
  }

  /** The reader undoes the builder. */
  lemma RoundTrip(memory: UserMemory, stack: Bytes, base: nat, argumentArray: nat, environmentArray: nat,
                  arguments: seq<Bytes>, environment: seq<Bytes>)
    requires Shows(memory, stack, base) && BelowEnd(stack, base)
    requires Holds(stack, base, argumentArray, arguments) && Holds(stack, base, environmentArray, environment)
    requires NulFree(arguments) && NulFree(environment)
    requires |arguments| <= MAX_ENTRIES && |environment| <= MAX_ENTRIES
    requires StringBytes(arguments) + StringBytes(environment) <= MAX_STRING_BYTES
    ensures ReadStaging(memory, argumentArray, environmentArray)
         == Ok(Staging(arguments, environment, StringBytes(arguments) + StringBytes(environment)))
  {
    hide Shows, BelowEnd, Holds, ReadVector, NulFree;
    HeldVectorReads(memory, stack, base, argumentArray, arguments, 0);
    HeldVectorReads(memory, stack, base, environmentArray, environment, StringBytes(arguments));
  }

  /** The reader finds these vectors in every user memory that shows the stack. */
  ghost predicate ReadsBack(stack: Bytes, base: nat, prepared: PreparedStack, staging: Staging) {
    forall memory: UserMemory :: Shows(memory, stack, base) ==>
      ReadStaging(memory, prepared.argumentArray, prepared.environmentArray) == Ok(staging)
  }

  lemma HeldReadsBack(stack: Bytes, base: nat, prepared: PreparedStack, arguments: seq<Bytes>, environment: seq<Bytes>)
    requires BelowEnd(stack, base)
    requires Holds(stack, base, prepared.argumentArray, arguments) && Holds(stack, base, prepared.environmentArray, environment)
    requires NulFree(arguments) && NulFree(environment)
    requires |arguments| <= MAX_ENTRIES && |environment| <= MAX_ENTRIES
    requires StringBytes(arguments) + StringBytes(environment) <= MAX_STRING_BYTES
    ensures ReadsBack(stack, base, prepared, Staging(arguments, environment, StringBytes(arguments) + StringBytes(environment)))
  {
    hide Shows, BelowEnd, Holds, NulFree, ReadStaging;
    forall memory: UserMemory | Shows(memory, stack, base)
      ensures ReadStaging(memory, prepared.argumentArray, prepared.environmentArray)
           == Ok(Staging(arguments, environment, StringBytes(arguments) + StringBytes(environment)))
    {
      RoundTrip(memory, stack, base, prepared.argumentArray, prepared.environmentArray, arguments, environment);
    }
  }

  /** Where a program starts on its stack of `size` bytes: with the number of its arguments, at an
      aligned pointer with the two arrays and all strings above it and every other byte of the stack
      below it. */
  ghost predicate Enters(prepared: PreparedStack, base: nat, size: nat, arguments: seq<Bytes>, environment: seq<Bytes>) {
    && prepared.argumentCount == |arguments|
    && prepared.stackPointer % 16 == 0 && base <= prepared.stackPointer <= prepared.argumentArray
    && prepared.argumentArray + 8 * (|arguments| + 1) <= prepared.environmentArray
    && prepared.stackPointer == FinalPointer(base + size, arguments, environment)
  }

  /** Prepare a stack from which the reader gets the same vectors, in every user memory that
      shows it. */
  method PrepareReadable(base: nat, bytes: array<Byte>, arguments: seq<Bytes>, environment: seq<Bytes>)
      returns (r: Outcome<PreparedStack>)
    requires 0 < base && base + bytes.Length + MAX_STRING_BYTES <= USER_SPACE_END
    requires |arguments| <= MAX_ENTRIES && |environment| <= MAX_ENTRIES
    requires NulFree(arguments) && NulFree(environment)
    requires StringBytes(arguments) + StringBytes(environment) <= MAX_STRING_BYTES
    modifies bytes
    ensures r.Panic? <==> FinalPointer(base + bytes.Length, arguments, environment) < base
    ensures r.Panic? ==> r.reason == StackOverflow
    ensures r.Done? ==>
              && Enters(r.value, base, bytes.Length, arguments, environment)
              && ReadsBack(bytes[..], base, r.value,
                           Staging(arguments, environment, StringBytes(arguments) + StringBytes(environment)))
  {
    hide Holds, FinalPointer, SameFrom, NulFree, ReadsBack;
    var cursor := new StackCursor(base, bytes);
    var prepared :- cursor.Prepare(arguments, environment);
    HeldReadsBack(bytes[..], base, prepared, arguments, environment);
    return Done(prepared);
  }

  /** First byte of the stack of `slot`. */
  function SlotBase(slot: nat): nat {
    UserStackPages.SlotPage(slot) * PAGE_SIZE
  }

  /** `execve`: what the reader takes from the old image it takes again, unchanged, from the stack
      built for the new one, in any slot; an accepted staging never overflows that stack. */
  method PassOn(memory: UserMemory, argumentArray: nat, environmentArray: nat, slot: nat, bytes: array<Byte>)
      returns (r: Copied<PreparedStack>)
    requires slot < UserStackPages.STACK_SLOTS && bytes.Length == EXECVE_STACK_BYTES
    modifies bytes
    ensures match ReadStaging(memory, argumentArray, environmentArray)
            case Ok(staging) =>
              && r.Ok? && ReadsBack(bytes[..], SlotBase(slot), r.value, staging)
              && Enters(r.value, SlotBase(slot), bytes.Length, staging.arguments, staging.environment)
            case Failed(error) => r == Failed(error)
  {
    hide FinalPointer, NulFree, ReadStaging, ReadsBack;
    var staging := CopyVectors(memory, argumentArray, environmentArray);
    match staging
    case Ok(value) =>
      AcceptedStagingFits(memory, argumentArray, environmentArray, SlotBase(slot));
      var prepared := PrepareReadable(SlotBase(slot), bytes, value.arguments, value.environment);
      return Ok(prepared.value);
    case Failed(error) =>
      return Failed(error);
  }
}
