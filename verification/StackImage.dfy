/** Placing `argv` and the environment on a fresh user stack. */
module StackImage {
  import opened Machine
  import opened LittleEndian

  const MAX_ENTRIES: nat := 8
  const POINTER_SIZE: nat := 8
  const STACK_ALIGNMENT: nat := 16

  /** Memory with `data` written at `offset`. */
  function Overwritten(memory: Bytes, offset: nat, data: Bytes): Bytes
    requires offset + |data| <= |memory|
  {
    memory[..offset] + data + memory[offset + |data|..]
  }

  /** A NUL-terminated string lies at `offset`. */
  predicate StringAt(memory: Bytes, offset: nat, value: Bytes) {
    && offset + |value| < |memory|
    && memory[offset..offset + |value|] == value
    && memory[offset + |value|] == 0
  }

  /** A 64-bit word lies at `offset`. */
  predicate WordAt(memory: Bytes, offset: nat, value: nat) {
    offset + POINTER_SIZE <= |memory| && Decode(memory[offset..offset + POINTER_SIZE]) == value
  }

  /** The words lie one after the other from `offset` on. */
  predicate WordsAt(memory: Bytes, offset: nat, values: seq<nat>) {
    forall i :: 0 <= i < |values| ==> WordAt(memory, offset + POINTER_SIZE * i, values[i])
  }

  /** Nothing at or above `offset` differs. */
  ghost predicate SameFrom(before: Bytes, after: Bytes, offset: nat) {
    |before| == |after| && forall k :: offset <= k < |before| ==> before[k] == after[k]
  }

  lemma StringKept(before: Bytes, after: Bytes, from: nat, offset: nat, value: Bytes)
    requires SameFrom(before, after, from) && from <= offset && StringAt(before, offset, value)
    ensures StringAt(after, offset, value)
  {
  }

  lemma WordKept(before: Bytes, after: Bytes, from: nat, offset: nat, value: nat)
    requires SameFrom(before, after, from) && from <= offset && WordAt(before, offset, value)
    ensures WordAt(after, offset, value)
  {
    assert before[offset..offset + POINTER_SIZE] == after[offset..offset + POINTER_SIZE];
  }

  lemma WordsKept(before: Bytes, after: Bytes, from: nat, offset: nat, values: seq<nat>)
    requires SameFrom(before, after, from) && from <= offset && WordsAt(before, offset, values)
    ensures WordsAt(after, offset, values)
  {
    forall i | 0 <= i < |values| ensures WordAt(after, offset + POINTER_SIZE * i, values[i]) {
      WordKept(before, after, from, offset + POINTER_SIZE * i, values[i]);
    }
  }

  /** Bytes taken by a vector of strings, terminators included. */
  function StringBytes(values: seq<Bytes>): nat {
    if values == [] then 0 else |values[0]| + 1 + StringBytes(values[1..])
  }

  function AlignedDown(address: int, alignment: nat): int
    requires 0 < alignment
  {
    address / alignment * alignment
  }

  /** Where the stack pointer ends up; below the stack when the data does not fit. */
  function FinalPointer(top: nat, arguments: seq<Bytes>, environment: seq<Bytes>): int {
    var strings := top - StringBytes(arguments) - StringBytes(environment);
    var arrays := AlignedDown(strings, POINTER_SIZE) - POINTER_SIZE * (|environment| + 1) - POINTER_SIZE * (|arguments| + 1);
    AlignedDown(arrays, STACK_ALIGNMENT)
  }

  /** The block takes what its strings and its two null-terminated arrays need, and less than a word and
      an alignment unit more: the pointer is the last multiple of 16 below the arrays, which end at the
      last multiple of 8 below the strings. */
  lemma FinalPointerExact(top: nat, arguments: seq<Bytes>, environment: seq<Bytes>) returns (words: int)
    ensures words % 8 == 0 && words <= top - StringBytes(arguments) - StringBytes(environment) < words + 8
    ensures var pointer := FinalPointer(top, arguments, environment);
            var arrays := words - 8 * (|arguments| + 1) - 8 * (|environment| + 1);
            pointer % 16 == 0 && pointer <= arrays < pointer + 16
  {
    words := AlignedDown(top - StringBytes(arguments) - StringBytes(environment), POINTER_SIZE);
  }

  /** The stack of a new program: its bytes and the pointer that moves down through them. */
  class StackCursor {
    const base: nat
    const memory: array<Byte>
    var pointer: nat

    ghost predicate Valid()
      reads this
    {
      0 < base && base <= pointer <= base + memory.Length < USER_SPACE_END
    }

    constructor (base: nat, memory: array<Byte>)
      requires 0 < base && base + memory.Length < USER_SPACE_END
      ensures Valid() && this.base == base && this.memory == memory && pointer == base + memory.Length
    {
      this.base := base;
      this.memory := memory;
      pointer := base + memory.Length;
    }

    method PushBytes(count: nat) returns (r: Outcome<nat>)
      requires Valid()
      modifies this
      ensures r.Panic? <==> old(pointer) - count < base
      ensures r.Panic? ==> r.reason == StackOverflow
      ensures r.Done? ==> Valid() && pointer == old(pointer) - count == r.value
    {
      if pointer < count || pointer - count < base {
        return Panic(StackOverflow);
      }
      pointer := pointer - count;
      return Done(pointer);
    }

    method AlignDown(alignment: nat) returns (r: Outcome<()>)
      requires Valid() && 0 < alignment
      modifies this
      ensures r.Panic? <==> AlignedDown(old(pointer), alignment) < base
      ensures r.Panic? ==> r.reason == StackOverflow
      ensures r.Done? ==> Valid() && pointer == AlignedDown(old(pointer), alignment)
    {
      var aligned := AlignedDown(pointer, alignment);
      if aligned < base {
        return Panic(StackOverflow);
      }
      pointer := aligned;
      return Done(());
    }

    /** Copy bytes to a place inside the stack. */
    method Write(offset: nat, data: Bytes)
      requires offset + |data| <= memory.Length
      modifies memory
      ensures memory[..] == Overwritten(old(memory[..]), offset, data)
    {
      ghost var before := memory[..];
      for index := 0 to |data|
        invariant forall k :: 0 <= k < memory.Length ==>
                    memory[k] == if offset <= k < offset + index then data[k - offset] else before[k]
      {
        memory[offset + index] := data[index];
      }
    }

    method PushCString(value: Bytes) returns (r: Outcome<nat>)
      requires Valid()
      modifies this, memory
      ensures r.Panic? <==> old(pointer) - (|value| + 1) < base
      ensures r.Panic? ==> r.reason == StackOverflow
      ensures r.Done? ==> Valid() && pointer == r.value == old(pointer) - (|value| + 1)
      ensures r.Done? ==> StringAt(memory[..], pointer - base, value)
      ensures r.Done? ==> SameFrom(old(memory[..]), memory[..], old(pointer) - base)
    {
      ghost var before := memory[..];
      var place :- PushBytes(|value| + 1);
      Write(place - base, value + [0]);
      WrittenString(before, place - base, value);
      return Done(place);
    }

    /** Write one word at an address inside the stack. */
    method WriteWord(address: nat, value: nat)
      requires base <= address && address + POINTER_SIZE <= base + memory.Length && value <= U64_MAX
      modifies memory
      ensures WordAt(memory[..], address - base, value)
      ensures forall k :: 0 <= k < memory.Length && !(address - base <= k < address - base + POINTER_SIZE) ==>
                memory[k] == old(memory[k])
    {
      ghost var before := memory[..];
      Write(address - base, Encode(value, POINTER_SIZE));
      WrittenWord(before, address - base, value);
    }

    method PushPointerArray(pointers: seq<nat>) returns (r: Outcome<nat>)
      requires Valid() && forall i :: 0 <= i < |pointers| ==> pointers[i] <= U64_MAX
      modifies this, memory
      ensures r.Panic? <==> old(pointer) - POINTER_SIZE * (|pointers| + 1) < base
      ensures r.Panic? ==> r.reason == StackOverflow
      ensures r.Done? ==> Valid() && pointer == r.value == old(pointer) - POINTER_SIZE * (|pointers| + 1)
      ensures r.Done? ==> WordsAt(memory[..], pointer - base, pointers + [0])
      ensures r.Done? ==> SameFrom(old(memory[..]), memory[..], old(pointer) - base)
    {
      var place :- PushBytes(POINTER_SIZE * (|pointers| + 1));
      WriteWords(place, pointers + [0]);
      return Done(place);
    }

    /** Write words one after the other, from `place` on. */
    method WriteWords(place: nat, words: seq<nat>)
      requires base <= place && place + POINTER_SIZE * |words| <= base + memory.Length
      requires forall i :: 0 <= i < |words| ==> words[i] <= U64_MAX
      modifies memory
      ensures WordsAt(memory[..], place - base, words)
      ensures SameFrom(old(memory[..]), memory[..], place - base + POINTER_SIZE * |words|)
    {
      hide WordAt, WordsAt, SameFrom;
      WordsBegin(memory[..], place - base, words);
      for index := 0 to |words|
        invariant WordsAt(memory[..], place - base, words[..index])
        invariant SameFrom(old(memory[..]), memory[..], place - base + POINTER_SIZE * |words|)
      {
        ghost var now := memory[..];
        WriteWord(place + POINTER_SIZE * index, words[index]);
        WordsGrow(now, memory[..], place - base, words, index);
        SameFromGrows(old(memory[..]), now, memory[..], place - base + POINTER_SIZE * |words|);
      }
      assert words[..|words|] == words;
    }

    /** Push strings from the last to the first. */
    method PushStrings(values: seq<Bytes>) returns (r: Outcome<seq<nat>>)
      requires Valid()
      modifies this, memory
      ensures r.Panic? <==> old(pointer) - StringBytes(values) < base
      ensures r.Panic? ==> r.reason == StackOverflow
      ensures r.Done? ==> Valid() && pointer == old(pointer) - StringBytes(values)
      ensures r.Done? ==> StringsAt(memory[..], base, pointer, r.value, values)
      ensures r.Done? ==> SameFrom(old(memory[..]), memory[..], old(pointer) - base)
    {
      hide StringAt, SameFrom, StringsAt;
      var pointers: seq<nat> := [];
      var index: nat := |values|;
      PushBegins(memory[..], base, pointer, values);
      while index > 0
        invariant Valid() && index <= |values|
        invariant pointer == old(pointer) - StringBytes(values[index..])
        invariant StringsAt(memory[..], base, pointer, pointers, values[index..])
        invariant SameFrom(old(memory[..]), memory[..], old(pointer) - base)
      {
        index := index - 1;
        StringBytesSuffix(values, index);
        ghost var now, low := memory[..], pointer;
        var place :- PushCString(values[index]);
        StringsKept(now, memory[..], base, low, pointer, pointers, values[index + 1..]);
        StringsGrow(memory[..], base, pointer, pointers, values, index);
        SameChains(old(memory[..]), now, memory[..], old(pointer) - base, low - base);
        pointers := [place] + pointers;
      }
      assert values[0..] == values;
      return Done(pointers);
    }

    /** Strings, then the environment array, then the argument array, then an aligned pointer. */
    method Prepare(arguments: seq<Bytes>, environment: seq<Bytes>) returns (r: Outcome<PreparedStack>)
      requires Valid() && |arguments| <= MAX_ENTRIES && |environment| <= MAX_ENTRIES
      requires NulFree(arguments) && NulFree(environment)
      modifies this, memory
      ensures r.Panic? <==> FinalPointer(old(pointer), arguments, environment) < base
      ensures r.Panic? ==> r.reason == StackOverflow
      ensures r.Done? ==>
                && r.value.stackPointer == FinalPointer(old(pointer), arguments, environment)
                && r.value.stackPointer % STACK_ALIGNMENT == 0 && base <= r.value.stackPointer
                && r.value.stackPointer <= r.value.argumentArray && r.value.argumentCount == |arguments|
                && r.value.argumentArray + POINTER_SIZE * (|arguments| + 1) <= r.value.environmentArray
      ensures r.Done? ==> Holds(memory[..], base, r.value.argumentArray, arguments)
      ensures r.Done? ==> Holds(memory[..], base, r.value.environmentArray, environment)
      ensures r.Done? ==> SameFrom(old(memory[..]), memory[..], old(pointer) - base)
    {
      hide StringAt, SameFrom, StringsAt, WordsAt, Holds, AlignedDown, FinalPointer, NulFree;
      ghost var top, mem0 := pointer, memory[..];
      PrepareFits(base, top, arguments, environment);
      var argumentPointers :- PushStrings(arguments);
      ghost var low1, mem1 := pointer, memory[..];
      var environmentPointers :- PushStrings(environment);
      ghost var low2, mem2 := pointer, memory[..];
      StringsKept(mem1, mem2, base, low1, low2, argumentPointers, arguments);
      var _ :- AlignDown(POINTER_SIZE);
      ghost var low3 := pointer;
      PointersFit(mem2, base, low2, environmentPointers, environment);
      var environmentArray :- PushPointerArray(environmentPointers);
      ghost var low4, mem4 := pointer, memory[..];
      PointersFit(mem2, base, low2, argumentPointers, arguments);
      var argumentArray :- PushPointerArray(argumentPointers);
      ghost var mem5 := memory[..];
      var _ :- AlignDown(STACK_ALIGNMENT);
      Assembled(mem0, mem1, mem2, mem4, mem5, base, top, low1, low2, low3, low4,
                argumentArray, argumentPointers, arguments, environmentPointers, environment);
      return Done(PreparedStack(pointer, |arguments|, argumentArray, environmentArray));
    }
  }

  predicate NulFree(values: seq<Bytes>) {
    forall i :: 0 <= i < |values| ==> 0 !in values[i]
  }

  /** An array at `place` whose words lead to the strings and end with a null word. */
  ghost predicate Holds(memory: Bytes, base: nat, place: nat, values: seq<Bytes>) {
    base <= place && exists pointers: seq<nat> ::
      StringsAt(memory, base, place, pointers, values) && WordsAt(memory, place - base, pointers + [0])
  }

  lemma PrepareFits(base: nat, top: nat, arguments: seq<Bytes>, environment: seq<Bytes>)
    ensures var low1 := top - StringBytes(arguments);
            var low2 := low1 - StringBytes(environment);
            var low3 := AlignedDown(low2, POINTER_SIZE);
            var low4 := low3 - POINTER_SIZE * (|environment| + 1);
            var low5 := low4 - POINTER_SIZE * (|arguments| + 1);
            && FinalPointer(top, arguments, environment) == AlignedDown(low5, STACK_ALIGNMENT)
            && AlignedDown(low5, STACK_ALIGNMENT) <= low5 <= low4 <= low3 <= low2 <= low1 <= top
            && AlignedDown(low5, STACK_ALIGNMENT) % STACK_ALIGNMENT == 0
  {
    hide AlignedDown;
    var low2 := top - StringBytes(arguments) - StringBytes(environment);
    AlignedPointer(low2);
    var low5 := AlignedDown(low2, POINTER_SIZE) - POINTER_SIZE * (|environment| + 1) - POINTER_SIZE * (|arguments| + 1);
    AlignedStack(low5);
  }

  lemma AlignedPointer(address: int)
    ensures address - 8 < AlignedDown(address, POINTER_SIZE) <= address
  {
    assert AlignedDown(address, 8) == address / 8 * 8;
  }

  lemma AlignedStack(address: int)
    ensures address - 16 < AlignedDown(address, STACK_ALIGNMENT) <= address
    ensures AlignedDown(address, STACK_ALIGNMENT) % STACK_ALIGNMENT == 0
  {
    assert AlignedDown(address, 16) == address / 16 * 16;
  }

  lemma PointersFit(memory: Bytes, base: nat, low: nat, pointers: seq<nat>, values: seq<Bytes>)
    requires StringsAt(memory, base, low, pointers, values) && base + |memory| < USER_SPACE_END
    ensures |pointers| == |values| && forall i :: 0 <= i < |pointers| ==> pointers[i] <= U64_MAX
  {
    forall i | 0 <= i < |pointers| ensures pointers[i] <= U64_MAX {
      assert StringAt(memory, pointers[i] - base, values[i]);
    }
  }

  lemma Assembled(mem0: Bytes, mem1: Bytes, mem2: Bytes, mem4: Bytes, mem5: Bytes, base: nat, top: nat,
                  low1: nat, low2: nat, low3: nat, low4: nat, low5: nat,
                  argumentPointers: seq<nat>, arguments: seq<Bytes>, environmentPointers: seq<nat>, environment: seq<Bytes>)
    requires base <= low5 <= low4 <= low3 <= low2 <= low1 <= top
    requires StringsAt(mem2, base, low2, argumentPointers, arguments)
    requires StringsAt(mem2, base, low2, environmentPointers, environment)
    requires SameFrom(mem0, mem1, top - base) && SameFrom(mem1, mem2, low1 - base)
    requires SameFrom(mem2, mem4, low3 - base) && SameFrom(mem4, mem5, low4 - base)
    requires WordsAt(mem4, low4 - base, environmentPointers + [0])
    requires WordsAt(mem5, low5 - base, argumentPointers + [0])
    ensures Holds(mem5, base, low5, arguments) && Holds(mem5, base, low4, environment)
    ensures SameFrom(mem0, mem5, top - base)
  {
    SameLower(mem2, mem4, low3 - base, low2 - base);
    SameLower(mem4, mem5, low4 - base, low2 - base);
    SameChains(mem2, mem4, mem5, low2 - base, low2 - base);
    StringsKept(mem2, mem5, base, low2, low5, argumentPointers, arguments);
    StringsKept(mem2, mem5, base, low2, low4, environmentPointers, environment);
    WordsKept(mem4, mem5, low4 - base, low4 - base, environmentPointers + [0]);
    SameLower(mem1, mem2, low1 - base, top - base);
    SameLower(mem2, mem5, low2 - base, top - base);
    SameChains(mem0, mem1, mem2, top - base, top - base);
    SameChains(mem0, mem2, mem5, top - base, top - base);
  }

  lemma SameLower(a: Bytes, b: Bytes, low: nat, high: nat)
    requires SameFrom(a, b, low) && low <= high
    ensures SameFrom(a, b, high)
  {
  }

  lemma PushBegins(memory: Bytes, base: nat, low: nat, values: seq<Bytes>)
    requires base <= low
    ensures StringsAt(memory, base, low, [], values[|values|..]) && SameFrom(memory, memory, low - base)
    ensures StringBytes(values[|values|..]) == 0
  {
  }

  lemma SameChains(a: Bytes, b: Bytes, c: Bytes, from: nat, low: nat)
    requires SameFrom(a, b, from) && SameFrom(b, c, low) && low <= from
    ensures SameFrom(a, c, from)
  {
  }

  /** What the first instruction of a program sees. */
  datatype PreparedStack = PreparedStack(stackPointer: nat, argumentCount: nat, argumentArray: nat, environmentArray: nat)

  /** The pointers lead to the strings. */
  ghost predicate StringsAt(memory: Bytes, base: nat, low: nat, pointers: seq<nat>, values: seq<Bytes>) {
    && |pointers| == |values|
    && (forall i :: 0 <= i < |values| ==> base <= low <= pointers[i] && StringAt(memory, pointers[i] - base, values[i]))
  }

  lemma StringsKept(before: Bytes, after: Bytes, base: nat, low: nat, low': nat, pointers: seq<nat>, values: seq<Bytes>)
    requires StringsAt(before, base, low, pointers, values) && base <= low' <= low
    requires SameFrom(before, after, low - base)
    ensures StringsAt(after, base, low', pointers, values)
  {
    forall i | 0 <= i < |values| ensures StringAt(after, pointers[i] - base, values[i]) {
      StringKept(before, after, low - base, pointers[i] - base, values[i]);
    }
  }

  lemma StringsGrow(memory: Bytes, base: nat, low: nat, pointers: seq<nat>, values: seq<Bytes>, index: nat)
    requires index < |values| && StringsAt(memory, base, low, pointers, values[index + 1..])
    requires base <= low && StringAt(memory, low - base, values[index])
    ensures StringsAt(memory, base, low, [low] + pointers, values[index..])
  {
    hide StringAt;
    var rest, all := values[index + 1..], values[index..];
    assert all == [values[index]] + rest;
    forall i | 0 < i < |all| ensures all[i] == rest[i - 1] && ([low] + pointers)[i] == pointers[i - 1] {
    }
  }

  lemma {:induction false} StringBytesSuffix(values: seq<Bytes>, index: nat)
    requires index <= |values|
    ensures StringBytes(values[index..]) <= StringBytes(values)
    ensures index < |values| ==> StringBytes(values[index..]) == |values[index]| + 1 + StringBytes(values[index + 1..])
  {
    if index < |values| {
      assert values[index..][1..] == values[index + 1..];
    }
    if index > 0 {
      StringBytesSuffix(values[1..], index - 1);
      assert values[1..][index - 1..] == values[index..];
    } else {
      assert values[0..] == values;
    }
  }

  lemma WrittenString(before: Bytes, offset: nat, value: Bytes)
    requires offset + |value| < |before|
    ensures StringAt(Overwritten(before, offset, value + [0]), offset, value)
    ensures SameFrom(before, Overwritten(before, offset, value + [0]), offset + |value| + 1)
  {
    var after := Overwritten(before, offset, value + [0]);
    assert after[offset..offset + |value|] == value;
  }

  lemma WrittenWord(before: Bytes, offset: nat, value: nat)
    requires offset + POINTER_SIZE <= |before| && value <= U64_MAX
    ensures WordAt(Overwritten(before, offset, Encode(value, POINTER_SIZE)), offset, value)
  {
    var after := Overwritten(before, offset, Encode(value, POINTER_SIZE));
    assert after[offset..offset + POINTER_SIZE] == Encode(value, POINTER_SIZE);
    WordRange();
    DecodeEncode(value, POINTER_SIZE);
  }

  lemma WordsBegin(memory: Bytes, offset: nat, words: seq<nat>)
    ensures WordsAt(memory, offset, words[..0]) && SameFrom(memory, memory, offset + POINTER_SIZE * |words|)
  {
  }

  lemma SameFromGrows(a: Bytes, b: Bytes, c: Bytes, from: nat)
    requires SameFrom(a, b, from) && |b| == |c| && forall k :: from <= k < |b| ==> b[k] == c[k]
    ensures SameFrom(a, c, from)
  {
  }

  /** Writing the next word leaves the earlier ones in place. */
  lemma WordsGrow(before: Bytes, after: Bytes, offset: nat, words: seq<nat>, index: nat)
    requires index < |words| && |before| == |after|
    requires WordsAt(before, offset, words[..index]) && WordAt(after, offset + POINTER_SIZE * index, words[index])
    requires forall k :: 0 <= k < |before| && !(offset + POINTER_SIZE * index <= k < offset + POINTER_SIZE * index + POINTER_SIZE) ==>
               after[k] == before[k]
    ensures WordsAt(after, offset, words[..index + 1])
  {
    forall i | 0 <= i < index ensures WordAt(after, offset + POINTER_SIZE * i, words[i]) {
      var place := offset + POINTER_SIZE * i;
      assert words[..index][i] == words[i];
      assert WordAt(before, offset + POINTER_SIZE * i, words[..index][i]);
      assert before[place..place + POINTER_SIZE] == after[place..place + POINTER_SIZE];
    }
  }
}
