/** Copying `argv` and the environment out of user memory for `execve` and `spawn`. */
module EntryReader {
  import opened Machine
  import opened LittleEndian
  import opened StackImage
  import Paths

  const MAX_PATH_BYTES: nat := 256
  const MAX_STRING_BYTES: nat := 4096
  const EXECVE_STACK_PAGES: nat := 4
  const EXECVE_STACK_BYTES: nat := EXECVE_STACK_PAGES * PAGE_SIZE

  /** The user bytes that are mapped readable. */
  type UserMemory = map<nat, Byte>

  datatype CopyError = BadAddress | ArgumentListTooLong | NotImplemented

  datatype Copied<+T> = Ok(value: T) | Failed(error: CopyError)

  /** A non-empty range inside user space. */
  predicate UserRange(start: nat, length: nat) {
    0 < start < USER_SPACE_END && 0 < length && start + length <= USER_SPACE_END
  }

  // ---------------------------------------------------------------- strings

  /** The bytes up to a NUL found within `limit` bytes, all of them mapped. */
  function ReadString(memory: UserMemory, start: nat, limit: nat): Option<Bytes>
    decreases limit
  {
    if limit == 0 || start !in memory then None
    else if memory[start] == 0 then Some([])
    else match ReadString(memory, start + 1, limit - 1)
      case None => None
      case Some(rest) => Some([memory[start]] + rest)
  }

  function Prefixed(front: Bytes, rest: Option<Bytes>): Option<Bytes> {
    match rest
    case None => None
    case Some(bytes) => Some(front + bytes)
  }

  lemma PrefixedNothing(rest: Option<Bytes>)
    ensures Prefixed([], rest) == rest
  {
    if rest.Some? {
      assert [] + rest.value == rest.value;
    }
  }

  lemma PrefixedMore(front: Bytes, byte: Byte, rest: Option<Bytes>)
    ensures Prefixed(front, Prefixed([byte], rest)) == Prefixed(front + [byte], rest)
  {
    if rest.Some? {
      assert front + ([byte] + rest.value) == (front + [byte]) + rest.value;
    }
  }

  /** `copy_cstr_bytes_from_user`. */
  method CopyCString(memory: UserMemory, start: nat, limit: nat) returns (r: Option<Bytes>)
    ensures r == ReadString(memory, start, limit)
  {
    var value: Bytes := [];
    PrefixedNothing(ReadString(memory, start, limit));
    for offset := 0 to limit
      invariant ReadString(memory, start, limit) == Prefixed(value, ReadString(memory, start + offset, limit - offset))
    {
      if start + offset !in memory {
        return None;
      }
      var byte := memory[start + offset];
      if byte == 0 {
        assert value + [] == value;
        return Some(value);
      }
      PrefixedMore(value, byte, ReadString(memory, start + offset + 1, limit - offset - 1));
      value := value + [byte];
    }
    return None;
  }

  lemma {:induction false} ReadStringNulFree(memory: UserMemory, start: nat, limit: nat)
    requires ReadString(memory, start, limit).Some?
    ensures 0 !in ReadString(memory, start, limit).value && |ReadString(memory, start, limit).value| < limit
    decreases limit
  {
    if memory[start] != 0 {
      ReadStringNulFree(memory, start + 1, limit - 1);
    }
  }

  lemma {:induction false} ReadStringFinds(memory: UserMemory, start: nat, limit: nat, value: Bytes)
    requires 0 !in value && |value| < limit
    requires forall a :: start <= a < start + |value| ==> a in memory && memory[a] == value[a - start]
    requires start + |value| in memory && memory[start + |value|] == 0
    ensures ReadString(memory, start, limit) == Some(value)
    decreases |value|
  {
    if value != [] {
      assert value[0] in value;
      ReadStringFinds(memory, start + 1, limit - 1, value[1..]);
      assert value == [value[0]] + value[1..];
    }
  }

  /** Mapped memory holds the bytes, none of them NUL, and a NUL after them. */
  ghost predicate StringIn(memory: UserMemory, start: nat, value: Bytes) {
    && 0 !in value
    && (forall a :: start <= a < start + |value| ==> a in memory && memory[a] == value[a - start])
    && start + |value| in memory && memory[start + |value|] == 0
  }

  lemma {:induction false} ReadStringHolds(memory: UserMemory, start: nat, limit: nat, value: Bytes)
    requires ReadString(memory, start, limit) == Some(value)
    ensures StringIn(memory, start, value) && |value| < limit
    decreases limit
  {
    if memory[start] != 0 {
      ReadStringHolds(memory, start + 1, limit - 1, value[1..]);
      forall a | start <= a < start + |value| ensures a in memory && memory[a] == value[a - start] {
        assert a > start ==> value[1..][a - (start + 1)] == value[a - start];
      }
      assert value == [value[0]] + value[1..];
    }
  }

  /** A string is read exactly when memory holds it, NUL included, within the limit. */
  lemma ReadStringExact(memory: UserMemory, start: nat, limit: nat, value: Bytes)
    ensures ReadString(memory, start, limit) == Some(value) <==> StringIn(memory, start, value) && |value| < limit
  {
    if ReadString(memory, start, limit) == Some(value) {
      ReadStringHolds(memory, start, limit, value);
    }
    if StringIn(memory, start, value) && |value| < limit {
      ReadStringFinds(memory, start, limit, value);
    }
  }

  // ---------------------------------------------------------------- words

  predicate WordMapped(memory: UserMemory, start: nat) {
    forall a :: start <= a < start + POINTER_SIZE ==> a in memory
  }

  function WordBytes(memory: UserMemory, start: nat): Bytes
    requires WordMapped(memory, start)
  {
    seq(POINTER_SIZE, k requires 0 <= k < POINTER_SIZE => memory[start + k])
  }

  /** `copy_user_entry_pointer_array_slot`. */
  function ReadSlot(memory: UserMemory, place: nat, index: nat): Copied<nat> {
    var slot := place + POINTER_SIZE * index;
    if slot > U64_MAX || !UserRange(slot, POINTER_SIZE) || !WordMapped(memory, slot) then Failed(BadAddress)
    else Ok(Decode(WordBytes(memory, slot)))
  }

  // ---------------------------------------------------------------- vectors

  /** `copy_user_entry_string_value`: the string and the running total of copied bytes. */
  function ReadValue(memory: UserMemory, pointer: nat, copied: nat): Copied<(Bytes, nat)> {
    if !UserRange(pointer, MAX_STRING_BYTES) then Failed(BadAddress)
    else match ReadString(memory, pointer, MAX_STRING_BYTES)
      case None => Failed(BadAddress)
      case Some(value) =>
        if copied + |value| + 1 > MAX_STRING_BYTES then Failed(ArgumentListTooLong)
        else Ok((value, copied + |value| + 1))
  }

  /** The strings from slot `index` on. */
  function ReadFrom(memory: UserMemory, place: nat, limit: nat, index: nat, copied: nat): Copied<(seq<Bytes>, nat)>
    requires index <= limit
    decreases limit - index
  {
    match ReadSlot(memory, place, index)
    case Failed(error) => Failed(error)
    case Ok(pointer) =>
      if pointer == 0 then Ok(([], copied))
      else if index == limit then Failed(ArgumentListTooLong)
      else match ReadValue(memory, pointer, copied)
        case Failed(error) => Failed(error)
        case Ok(first) =>
          match ReadFrom(memory, place, limit, index + 1, first.1)
          case Failed(error) => Failed(error)
          case Ok(rest) => Ok(([first.0] + rest.0, rest.1))
  }

  /** `copy_user_entry_string_vector`: a null array is an empty vector. */
  function ReadVector(memory: UserMemory, place: nat, limit: nat, copied: nat): Copied<(seq<Bytes>, nat)> {
    if place == 0 then Ok(([], copied)) else ReadFrom(memory, place, limit, 0, copied)
  }

  method CopyVector(memory: UserMemory, place: nat, limit: nat, copied: nat) returns (r: Copied<(seq<Bytes>, nat)>)
    ensures r == ReadVector(memory, place, limit, copied)
  {
    if place == 0 {
      return Ok(([], copied));
    }
    var values: seq<Bytes>, total := [], copied;
    FollowingNothing(ReadFrom(memory, place, limit, 0, copied));
    for index := 0 to limit + 1
      invariant index <= limit
      invariant ReadFrom(memory, place, limit, 0, copied) == Following(values, ReadFrom(memory, place, limit, index, total))
    {
      var slot := ReadSlot(memory, place, index);
      if slot.Failed? {
        return Failed(slot.error);
      }
      if slot.value == 0 {
        assert values + [] == values;
        return Ok((values, total));
      }
      if index == limit {
        return Failed(ArgumentListTooLong);
      }
      var first := ReadValue(memory, slot.value, total);
      if first.Failed? {
        return Failed(first.error);
      }
      FollowingMore(values, first.value.0, ReadFrom(memory, place, limit, index + 1, first.value.1));
      values, total := values + [first.value.0], first.value.1;
    }
    return Ok((values, total));
  }

  function Following(front: seq<Bytes>, rest: Copied<(seq<Bytes>, nat)>): Copied<(seq<Bytes>, nat)> {
    match rest
    case Failed(error) => Failed(error)
    case Ok(tail) => Ok((front + tail.0, tail.1))
  }

  lemma FollowingNothing(rest: Copied<(seq<Bytes>, nat)>)
    ensures Following([], rest) == rest
  {
    if rest.Ok? {
      assert [] + rest.value.0 == rest.value.0;
    }
  }

  lemma FollowingMore(front: seq<Bytes>, first: Bytes, rest: Copied<(seq<Bytes>, nat)>)
    ensures Following(front, Following([first], rest)) == Following(front + [first], rest)
  {
    if rest.Ok? {
      assert front + ([first] + rest.value.0) == (front + [first]) + rest.value.0;
    }
  }

  datatype Staging = Staging(arguments: seq<Bytes>, environment: seq<Bytes>, copiedBytes: nat)

  /** Both vectors; they share one byte budget. */
  function ReadStaging(memory: UserMemory, argumentArray: nat, environmentArray: nat): Copied<Staging> {
    match ReadVector(memory, argumentArray, MAX_ENTRIES, 0)
    case Failed(error) => Failed(error)
    case Ok(arguments) =>
      match ReadVector(memory, environmentArray, MAX_ENTRIES, arguments.1) {
        case Failed(error) => Failed(error)
        case Ok(environment) => Ok(Staging(arguments.0, environment.0, environment.1))
      }
  }

  method CopyVectors(memory: UserMemory, argumentArray: nat, environmentArray: nat) returns (r: Copied<Staging>)
    ensures r == ReadStaging(memory, argumentArray, environmentArray)
  {
    var arguments := CopyVector(memory, argumentArray, MAX_ENTRIES, 0);
    if arguments.Failed? {
      return Failed(arguments.error);
    }
    var environment := CopyVector(memory, environmentArray, MAX_ENTRIES, arguments.value.1);
    if environment.Failed? {
      return Failed(environment.error);
    }
    return Ok(Staging(arguments.value.0, environment.value.0, environment.value.1));
  }

  // ---------------------------------------------------------------- path and vectors

  function Text(bytes: Bytes): string {
    seq(|bytes|, i requires 0 <= i < |bytes| => bytes[i] as char)
  }

  /** `copy_path_argument`. */
  function ReadPath(memory: UserMemory, pointer: nat): Copied<string> {
    if !UserRange(pointer, MAX_PATH_BYTES) then Failed(BadAddress)
    else match ReadString(memory, pointer, MAX_PATH_BYTES)
      case None => Failed(BadAddress)
      case Some(bytes) => Ok(Text(bytes))
  }

  /** The path, resolved against the working directory of the caller, and the vectors. */
  function ReadEntry(memory: UserMemory, directory: Option<string>, path: nat, argumentArray: nat, environmentArray: nat)
      : Copied<(string, Staging)>
  {
    match ReadPath(memory, path)
    case Failed(error) => Failed(error)
    case Ok(text) =>
      match directory {
        case None => Failed(NotImplemented)
        case Some(current) =>
          match ReadStaging(memory, argumentArray, environmentArray) {
            case Failed(error) => Failed(error)
            case Ok(staging) => Ok((Paths.Resolve(current, text), staging))
          }
      }
  }

  /** `copy_user_program_entry_staging`. */
  method CopyStaging(memory: UserMemory, directory: Option<string>, path: nat, argumentArray: nat, environmentArray: nat)
      returns (r: Copied<(string, Staging)>)
    ensures r == ReadEntry(memory, directory, path, argumentArray, environmentArray)
  {
    if !UserRange(path, MAX_PATH_BYTES) {
      return Failed(BadAddress);
    }
    var bytes := CopyCString(memory, path, MAX_PATH_BYTES);
    if bytes.None? {
      return Failed(BadAddress);
    }
    if directory.None? {
      return Failed(NotImplemented);
    }
    var vectors := CopyVectors(memory, argumentArray, environmentArray);
    if vectors.Failed? {
      return Failed(vectors.error);
    }
    return Ok((Paths.Resolve(directory.value, Text(bytes.value)), vectors.value));
  }

  /** The path found is the bytes in memory up to their NUL, resolved; it is a canonical path, so it
      starts with a slash. */
  lemma EntryPath(memory: UserMemory, current: string, path: nat, argumentArray: nat, environmentArray: nat, bytes: Bytes)
    requires ReadEntry(memory, Some(current), path, argumentArray, environmentArray).Ok?
    requires StringIn(memory, path, bytes) && |bytes| < MAX_PATH_BYTES
    ensures var found := ReadEntry(memory, Some(current), path, argumentArray, environmentArray).value.0;
            && found == Paths.Resolve(current, Text(bytes)) && Paths.CanonicalPath(found) && found != "" && found[0] == '/'
  {
    ReadStringExact(memory, path, MAX_PATH_BYTES, bytes);
    var full := if Text(bytes) != "" && Text(bytes)[0] == '/' then Text(bytes) else current + "/" + Text(bytes);
    Paths.SegmentsPlain(full);
    Paths.RenderCanonical(Paths.Segments(full));
  }

  // ---------------------------------------------------------------- what memory has to hold

  /** Eight readable bytes of user space make up this word, lowest byte first. */
  ghost predicate SlotHolds(memory: UserMemory, place: nat, index: nat, word: nat) {
    var a := place + 8 * index;
    && 0 < a && a + 8 <= USER_SPACE_END && (forall k :: a <= k < a + 8 ==> k in memory)
    && word == memory[a] as nat + 0x100 * (memory[a + 1] as nat) + 0x1_0000 * (memory[a + 2] as nat)
               + 0x100_0000 * (memory[a + 3] as nat)
               + 0x1_0000_0000 * (memory[a + 4] as nat + 0x100 * (memory[a + 5] as nat) + 0x1_0000 * (memory[a + 6] as nat)
                                  + 0x100_0000 * (memory[a + 7] as nat))
  }

  lemma DecodeEight(bytes: Bytes)
    requires |bytes| == 8
    ensures Decode(bytes) == bytes[0] as nat + 0x100 * (bytes[1] as nat) + 0x1_0000 * (bytes[2] as nat)
                             + 0x100_0000 * (bytes[3] as nat)
                             + 0x1_0000_0000 * (bytes[4] as nat + 0x100 * (bytes[5] as nat) + 0x1_0000 * (bytes[6] as nat)
                                                + 0x100_0000 * (bytes[7] as nat))
  {
    DecodeFour(bytes[4..]);
    DecodeStep(bytes, 0);
    DecodeStep(bytes, 1);
    DecodeStep(bytes, 2);
    DecodeStep(bytes, 3);
    assert bytes[0..] == bytes;
  }

  lemma DecodeFour(bytes: Bytes)
    requires |bytes| == 4
    ensures Decode(bytes) == bytes[0] as nat + 0x100 * (bytes[1] as nat) + 0x1_0000 * (bytes[2] as nat)
                             + 0x100_0000 * (bytes[3] as nat)
  {
    DecodeStep(bytes, 0);
    DecodeStep(bytes, 1);
    DecodeStep(bytes, 2);
    DecodeStep(bytes, 3);
    assert bytes[0..] == bytes && Decode(bytes[4..]) == 0;
  }

  lemma DecodeStep(bytes: Bytes, at: nat)
    requires at < |bytes|
    ensures Decode(bytes[at..]) == bytes[at] + 256 * Decode(bytes[at + 1..])
  {
    assert bytes[at..][1..] == bytes[at + 1..];
  }

  /** A slot is read exactly when memory holds its word. */
  lemma SlotExact(memory: UserMemory, place: nat, index: nat)
    ensures match ReadSlot(memory, place, index)
            case Ok(word) => SlotHolds(memory, place, index, word)
            case Failed(error) => error == BadAddress && forall word: nat :: !SlotHolds(memory, place, index, word)
    ensures forall word: nat :: SlotHolds(memory, place, index, word) ==> ReadSlot(memory, place, index) == Ok(word)
  {
    if ReadSlot(memory, place, index).Ok? {
      DecodeEight(WordBytes(memory, place + POINTER_SIZE * index));
    }
  }

  /** The slot leads to a string that fits a request, NUL included. */
  ghost predicate EntryIn(memory: UserMemory, place: nat, index: nat, value: Bytes) {
    exists pointer: nat :: pointer != 0 && SlotHolds(memory, place, index, pointer) && ValueIn(memory, pointer, value)
  }

  ghost predicate ValueIn(memory: UserMemory, pointer: nat, value: Bytes) {
    0 < pointer && pointer + 4096 <= USER_SPACE_END && StringIn(memory, pointer, value) && |value| < 4096
  }

  /** Slots from `index` on lead to these strings, and then there is a null slot. */
  ghost predicate ListIn(memory: UserMemory, place: nat, index: nat, values: seq<Bytes>) {
    && (forall i :: 0 <= i < |values| ==> EntryIn(memory, place, index + i, values[i]))
    && SlotHolds(memory, place, index + |values|, 0)
  }

  lemma ValueExact(memory: UserMemory, pointer: nat, copied: nat, value: Bytes)
    ensures ReadValue(memory, pointer, copied) == Ok((value, copied + |value| + 1)) <==>
            ValueIn(memory, pointer, value) && copied + |value| + 1 <= MAX_STRING_BYTES
  {
    ReadStringExact(memory, pointer, MAX_STRING_BYTES, value);
  }

  /** Why one value is refused. */
  lemma ValueRefused(memory: UserMemory, pointer: nat, copied: nat)
    ensures match ReadValue(memory, pointer, copied)
            case Ok(first) => first.1 == copied + |first.0| + 1
            case Failed(error) =>
              || (error == BadAddress && forall value :: !ValueIn(memory, pointer, value))
              || (error == ArgumentListTooLong
                  && exists value :: ValueIn(memory, pointer, value) && copied + |value| + 1 > 4096)
  {
    if 0 < pointer && pointer + MAX_STRING_BYTES <= USER_SPACE_END {
      match ReadString(memory, pointer, MAX_STRING_BYTES)
      case Some(value) =>
        ReadStringExact(memory, pointer, MAX_STRING_BYTES, value);
      case None =>
        forall value ensures !ValueIn(memory, pointer, value) {
          ReadStringExact(memory, pointer, MAX_STRING_BYTES, value);
        }
    }
  }

  lemma ListTail(memory: UserMemory, place: nat, index: nat, values: seq<Bytes>)
    requires values != []
    ensures ListIn(memory, place, index, values) <==>
            EntryIn(memory, place, index, values[0]) && ListIn(memory, place, index + 1, values[1..])
  {
    hide EntryIn, SlotHolds;
    var rest := values[1..];
    if ListIn(memory, place, index, values) {
      assert EntryIn(memory, place, index + 0, values[0]);
      forall i | 0 <= i < |rest| ensures EntryIn(memory, place, index + 1 + i, rest[i]) {
        assert EntryIn(memory, place, index + (i + 1), values[i + 1]);
      }
    }
    if EntryIn(memory, place, index, values[0]) && ListIn(memory, place, index + 1, rest) {
      forall i | 0 <= i < |values| ensures EntryIn(memory, place, index + i, values[i]) {
        if i > 0 {
          assert EntryIn(memory, place, index + 1 + (i - 1), rest[i - 1]);
        }
      }
    }
  }

  /** Within the limits of count and bytes. */
  predicate Fits(values: seq<Bytes>, limit: int, copied: nat) {
    |values| <= limit && (values == [] || copied + StringBytes(values) <= 4096)
  }

  /** A list is read exactly when memory holds it and it keeps to the limits. */
  lemma {:induction false} ListExact(memory: UserMemory, place: nat, limit: nat, index: nat, copied: nat, values: seq<Bytes>)
    requires index <= limit
    ensures ReadFrom(memory, place, limit, index, copied) == Ok((values, copied + StringBytes(values))) <==>
            ListIn(memory, place, index, values) && Fits(values, limit - index, copied)
    decreases limit - index
  {
    hide SlotHolds, ReadSlot, ReadValue, ValueIn, StringBytes;
    SlotExact(memory, place, index);
    assert StringBytes([]) == 0 by {
      StringBytesEmpty();
    }
    match ReadSlot(memory, place, index)
    case Failed(_) =>
      NoList(memory, place, index, values);
    case Ok(pointer) =>
      if values == [] {
        if pointer != 0 && index < limit && ReadValue(memory, pointer, copied).Ok? {
          var first := ReadValue(memory, pointer, copied).value;
        }
      } else {
        StringBytesFirst(values);
        ListTail(memory, place, index, values);
        EntryAt(memory, place, index, pointer, values[0]);
        if pointer != 0 && index < limit {
          ValueRefused(memory, pointer, copied);
          ValueExact(memory, pointer, copied, values[0]);
          if ReadValue(memory, pointer, copied) == Ok((values[0], copied + |values[0]| + 1)) {
            ListExact(memory, place, limit, index + 1, copied + |values[0]| + 1, values[1..]);
            assert values == [values[0]] + values[1..];
          }
        }
      }
  }

  lemma StringBytesEmpty()
    ensures StringBytes([]) == 0
  {
  }

  lemma StringBytesFirst(values: seq<Bytes>)
    requires values != []
    ensures StringBytes(values) == |values[0]| + 1 + StringBytes(values[1..])
  {
  }

  lemma NoList(memory: UserMemory, place: nat, index: nat, values: seq<Bytes>)
    requires forall word: nat :: !SlotHolds(memory, place, index, word)
    ensures !ListIn(memory, place, index, values)
  {
    hide SlotHolds;
    if values != [] {
      ListTail(memory, place, index, values);
      assert !EntryIn(memory, place, index, values[0]);
    }
  }

  lemma EntryAt(memory: UserMemory, place: nat, index: nat, pointer: nat, value: Bytes)
    requires SlotHolds(memory, place, index, pointer)
    ensures EntryIn(memory, place, index, value) <==> pointer != 0 && ValueIn(memory, pointer, value)
    ensures SlotHolds(memory, place, index, 0) <==> pointer == 0
  {
    hide ValueIn;
    if EntryIn(memory, place, index, value) {
      var other: nat :| other != 0 && SlotHolds(memory, place, index, other) && ValueIn(memory, other, value);
    }
  }

  /** Why reading a list stops at slot `index`, with `copied` bytes taken so far: the slot cannot be read,
      there is one entry too many, its string cannot be read, or it takes the bytes over their limit. */
  ghost predicate RefusedAt(memory: UserMemory, place: nat, limit: int, index: nat, copied: nat, error: CopyError) {
    || (error == BadAddress && forall word: nat :: !SlotHolds(memory, place, index, word))
    || exists pointer: nat ::
         && pointer != 0 && SlotHolds(memory, place, index, pointer)
         && (|| (error == ArgumentListTooLong && index == limit)
             || (error == BadAddress && index < limit && forall value :: !ValueIn(memory, pointer, value))
             || (error == ArgumentListTooLong && index < limit
                 && exists value :: ValueIn(memory, pointer, value) && copied + |value| + 1 > 4096))
  }

  /** A refused list has a first slot that cannot be taken, after entries that could. */
  lemma {:induction false} ListRefused(memory: UserMemory, place: nat, limit: nat, index: nat, copied: nat)
      returns (values: seq<Bytes>)
    requires index <= limit && ReadFrom(memory, place, limit, index, copied).Failed?
    ensures forall i :: 0 <= i < |values| ==> EntryIn(memory, place, index + i, values[i])
    ensures Fits(values, limit - index, copied)
    ensures RefusedAt(memory, place, limit, index + |values|, copied + StringBytes(values),
                      ReadFrom(memory, place, limit, index, copied).error)
    decreases limit - index
  {
    hide SlotHolds, ReadSlot, ReadValue, ValueIn, StringBytes;
    values := [];
    StringBytesEmpty();
    SlotExact(memory, place, index);
    if ReadSlot(memory, place, index).Ok? {
      var pointer := ReadSlot(memory, place, index).value;
      ValueRefused(memory, pointer, copied);
      if index < limit && ReadValue(memory, pointer, copied).Ok? {
        var first := ReadValue(memory, pointer, copied).value;
        ValueExact(memory, pointer, copied, first.0);
        EntryAt(memory, place, index, pointer, first.0);
        var rest := ListRefused(memory, place, limit, index + 1, first.1);
        values := [first.0] + rest;
        StringBytesFirst(values);
        assert values[1..] == rest;
        if rest == [] {
          StringBytesEmpty();
        }
        forall i | 0 <= i < |values| ensures EntryIn(memory, place, index + i, values[i]) {
          if i > 0 {
            assert EntryIn(memory, place, index + 1 + (i - 1), rest[i - 1]);
          }
        }
      }
    }
  }

  /** A null array is an empty vector, any other one the list at its address. */
  ghost predicate VectorIn(memory: UserMemory, place: nat, values: seq<Bytes>) {
    if place == 0 then values == [] else ListIn(memory, place, 0, values)
  }

  lemma VectorExact(memory: UserMemory, place: nat, limit: nat, copied: nat, values: seq<Bytes>)
    ensures ReadVector(memory, place, limit, copied) == Ok((values, copied + StringBytes(values))) <==>
            VectorIn(memory, place, values) && Fits(values, limit, copied)
    ensures ReadVector(memory, place, limit, copied).Ok? ==>
              var read := ReadVector(memory, place, limit, copied).value; read.1 == copied + StringBytes(read.0)
  {
    hide ListIn;
    StringBytesEmpty();
    if place != 0 {
      ListExact(memory, place, limit, 0, copied, values);
      if ReadFrom(memory, place, limit, 0, copied).Ok? {
        TotalIsBytes(memory, place, limit, 0, copied);
      }
    }
  }

  lemma {:induction false} TotalIsBytes(memory: UserMemory, place: nat, limit: nat, index: nat, copied: nat)
    requires index <= limit && ReadFrom(memory, place, limit, index, copied).Ok?
    ensures var r := ReadFrom(memory, place, limit, index, copied).value; r.1 == copied + StringBytes(r.0)
    decreases limit - index
  {
    hide ReadSlot, ReadValue, StringBytes;
    StringBytesEmpty();
    var pointer := ReadSlot(memory, place, index).value;
    if pointer != 0 {
      ValueRefused(memory, pointer, copied);
      var first := ReadValue(memory, pointer, copied).value;
      TotalIsBytes(memory, place, limit, index + 1, first.1);
      var rest := ReadFrom(memory, place, limit, index + 1, first.1).value;
      StringBytesFirst([first.0] + rest.0);
      assert ([first.0] + rest.0)[1..] == rest.0;
    }
  }

  /** The reader takes exactly the two vectors that memory holds within the limits: eight entries each, and
      4096 bytes together. */
  lemma StagingExact(memory: UserMemory, argumentArray: nat, environmentArray: nat, staging: Staging)
    ensures ReadStaging(memory, argumentArray, environmentArray) == Ok(staging) <==>
            && VectorIn(memory, argumentArray, staging.arguments) && VectorIn(memory, environmentArray, staging.environment)
            && Fits(staging.arguments, 8, 0) && Fits(staging.environment, 8, StringBytes(staging.arguments))
            && staging.copiedBytes == StringBytes(staging.arguments) + StringBytes(staging.environment)
  {
    hide VectorIn, ReadVector;
    var arguments := ReadVector(memory, argumentArray, MAX_ENTRIES, 0);
    VectorExact(memory, argumentArray, MAX_ENTRIES, 0, staging.arguments);
    VectorExact(memory, environmentArray, MAX_ENTRIES, StringBytes(staging.arguments), staging.environment);
  }

  /** Entries that could be taken, and then one that cannot. */
  ghost predicate ListRefusedFor(memory: UserMemory, place: nat, limit: nat, copied: nat, error: CopyError) {
    exists values: seq<Bytes> ::
      && (forall i :: 0 <= i < |values| ==> EntryIn(memory, place, i, values[i])) && Fits(values, limit, copied)
      && RefusedAt(memory, place, limit, |values|, copied + StringBytes(values), error)
  }

  /** A refusal of the vectors has its cause in memory: in the arguments, or, when those can be taken, in
      the environment. */
  lemma StagingRefused(memory: UserMemory, argumentArray: nat, environmentArray: nat)
    requires ReadStaging(memory, argumentArray, environmentArray).Failed?
    ensures var error := ReadStaging(memory, argumentArray, environmentArray).error;
            || (argumentArray != 0 && ListRefusedFor(memory, argumentArray, 8, 0, error))
            || exists arguments: seq<Bytes> ::
                 && VectorIn(memory, argumentArray, arguments) && Fits(arguments, 8, 0)
                 && environmentArray != 0 && ListRefusedFor(memory, environmentArray, 8, StringBytes(arguments), error)
  {
    hide ListRefusedFor, VectorIn, ReadFrom, StringBytes;
    match ReadVector(memory, argumentArray, MAX_ENTRIES, 0)
    case Failed(error) =>
      RefusedHasCause(memory, argumentArray, 0);
    case Ok(arguments) =>
      VectorExact(memory, argumentArray, MAX_ENTRIES, 0, arguments.0);
      RefusedHasCause(memory, environmentArray, arguments.1);
  }

  lemma RefusedHasCause(memory: UserMemory, place: nat, copied: nat)
    requires ReadFrom(memory, place, 8, 0, copied).Failed?
    ensures ListRefusedFor(memory, place, 8, copied, ReadFrom(memory, place, 8, 0, copied).error)
  {
    hide RefusedAt, EntryIn, ReadFrom, StringBytes;
    var values := ListRefused(memory, place, 8, 0, copied);
    forall i | 0 <= i < |values| ensures EntryIn(memory, place, i, values[i]) {
      assert EntryIn(memory, place, 0 + i, values[i]);
    }
  }

  /** The path is the string that memory holds, character by character. */
  lemma PathExact(memory: UserMemory, pointer: nat)
    ensures match ReadPath(memory, pointer)
            case Ok(text) => PathIn(memory, pointer, text)
            case Failed(error) => error == BadAddress && forall text :: !PathIn(memory, pointer, text)
    ensures forall text :: PathIn(memory, pointer, text) ==> ReadPath(memory, pointer) == Ok(text)
  {
    hide ReadString, StringIn, PathIn;
    if ReadPath(memory, pointer).Ok? {
      var bytes := ReadString(memory, pointer, MAX_PATH_BYTES).value;
      ReadStringExact(memory, pointer, MAX_PATH_BYTES, bytes);
      TextIn(memory, pointer, bytes);
    }
    forall text | PathIn(memory, pointer, text) ensures ReadPath(memory, pointer) == Ok(text) {
      var bytes := BytesOf(memory, pointer, text);
      ReadStringExact(memory, pointer, MAX_PATH_BYTES, bytes);
    }
  }

  ghost predicate PathIn(memory: UserMemory, pointer: nat, text: string) {
    && 0 < pointer && pointer + 256 <= USER_SPACE_END && |text| < 256
    && pointer + |text| in memory && memory[pointer + |text|] == 0
    && forall i: nat :: i < |text| ==> CharIn(memory, pointer, text, i)
  }

  ghost predicate CharIn(memory: UserMemory, pointer: nat, text: string, i: nat)
    requires i < |text|
  {
    pointer + i in memory && memory[pointer + i] != 0 && text[i] as int == memory[pointer + i]
  }

  lemma TextIn(memory: UserMemory, pointer: nat, bytes: Bytes)
    requires StringIn(memory, pointer, bytes) && |bytes| < 256 && 0 < pointer && pointer + 256 <= USER_SPACE_END
    ensures PathIn(memory, pointer, Text(bytes))
  {
    forall i: nat | i < |bytes| ensures CharIn(memory, pointer, Text(bytes), i) {
      assert bytes[i] in bytes && memory[pointer + i] == bytes[pointer + i - pointer];
    }
  }

  ghost function ByteIn(memory: UserMemory, a: nat): Byte {
    if a in memory then memory[a] else 0
  }

  lemma BytesOf(memory: UserMemory, pointer: nat, text: string) returns (bytes: Bytes)
    requires PathIn(memory, pointer, text)
    ensures |bytes| == |text| < 256 && Text(bytes) == text && StringIn(memory, pointer, bytes)
    ensures 0 < pointer && pointer + 256 <= USER_SPACE_END
  {
    bytes := seq<Byte>(|text|, i requires 0 <= i => ByteIn(memory, pointer + i));
    forall i: nat | i < |text| ensures Text(bytes)[i] == text[i] && bytes[i] != 0 {
      assert CharIn(memory, pointer, text, i) && bytes[i] == ByteIn(memory, pointer + i);
      assert text[i] == (text[i] as int) as char;
    }
    forall a | pointer <= a < pointer + |bytes| ensures a in memory && memory[a] == bytes[a - pointer] {
      assert CharIn(memory, pointer, text, a - pointer) && bytes[a - pointer] == ByteIn(memory, pointer + (a - pointer));
    }
  }

  // ---------------------------------------------------------------- what is accepted fits the builder

  lemma {:induction false} ReadFromBounds(memory: UserMemory, place: nat, limit: nat, index: nat, copied: nat)
    requires index <= limit && copied <= MAX_STRING_BYTES && ReadFrom(memory, place, limit, index, copied).Ok?
    ensures var r := ReadFrom(memory, place, limit, index, copied).value;
            && |r.0| + index <= limit && NulFree(r.0)
            && r.1 == copied + StringBytes(r.0) && r.1 <= MAX_STRING_BYTES
    decreases limit - index
  {
    var pointer := ReadSlot(memory, place, index).value;
    if pointer != 0 {
      var first := ReadValue(memory, pointer, copied).value;
      ReadStringNulFree(memory, pointer, MAX_STRING_BYTES);
      ReadFromBounds(memory, place, limit, index + 1, first.1);
      var rest := ReadFrom(memory, place, limit, index + 1, first.1).value;
      assert ([first.0] + rest.0)[1..] == rest.0;
    }
  }

  /** Every staging the reader accepts meets the stack builder's demands: counts, no NUL inside a
      string, and room on the four-page stack of a new image. */
  lemma AcceptedStagingFits(memory: UserMemory, argumentArray: nat, environmentArray: nat, base: nat)
    requires ReadStaging(memory, argumentArray, environmentArray).Ok?
    ensures var s := ReadStaging(memory, argumentArray, environmentArray).value;
            && |s.arguments| <= MAX_ENTRIES && |s.environment| <= MAX_ENTRIES
            && NulFree(s.arguments) && NulFree(s.environment)
            && StringBytes(s.arguments) + StringBytes(s.environment) == s.copiedBytes <= MAX_STRING_BYTES
            && base <= FinalPointer(base + EXECVE_STACK_BYTES, s.arguments, s.environment)
  {
    var arguments := ReadVector(memory, argumentArray, MAX_ENTRIES, 0).value;
    if argumentArray != 0 {
      ReadFromBounds(memory, argumentArray, MAX_ENTRIES, 0, 0);
    }
    if environmentArray != 0 {
      ReadFromBounds(memory, environmentArray, MAX_ENTRIES, 0, arguments.1);
    }
    var s := ReadStaging(memory, argumentArray, environmentArray).value;
    RoomFor(base, s.arguments, s.environment);
  }

  lemma RoomFor(base: nat, arguments: seq<Bytes>, environment: seq<Bytes>)
    requires |arguments| <= MAX_ENTRIES && |environment| <= MAX_ENTRIES
    requires StringBytes(arguments) + StringBytes(environment) <= MAX_STRING_BYTES
    ensures base <= FinalPointer(base + EXECVE_STACK_BYTES, arguments, environment)
  {
    hide AlignedDown;
    var strings := base + EXECVE_STACK_BYTES - StringBytes(arguments) - StringBytes(environment);
    AlignedPointer(strings);
    AlignedStack(AlignedDown(strings, POINTER_SIZE) - POINTER_SIZE * (|environment| + 1) - POINTER_SIZE * (|arguments| + 1));
  }
}
