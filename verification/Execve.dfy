/** What an `execve` call asks for, read from the memory of the process that makes it. */
module Execves {
  import opened Machine
  import opened LittleEndian
  import opened PageTree
  import opened Elf
  import opened ElfLoader
  import opened UserHeaps
  import opened UserStackPages
  import opened StackImage
  import opened EntryReader
  import Paths
  import opened StackRoundTrip
  import opened StackPlacements
  import opened Processes

  /** The call: the caller's memory as the kernel's reader sees it, its working directory, the three
      pointers; then what the system adds: the regular files, the next stack slot, the kernel entries
      to copy, and whether the scheduler takes the new image. */
  datatype Execve = Execve(user: UserMemory, directory: Option<string>, path: nat, argumentArray: nat, environmentArray: nat,
                           files: map<string, Bytes>, slot: nat, active: seq<Entry>, published: bool)

  datatype ExecveError = Unreadable(error: CopyError) | NoSuchFile | InvalidImage | NotTaken

  datatype Request = Granted(program: Program) | Denied(error: ExecveError)

  /** The program a call asks for, or the first thing that is wrong with it. */
  function Requested(call: Execve): Request {
    match ReadEntry(call.user, call.directory, call.path, call.argumentArray, call.environmentArray)
    case Failed(error) => Denied(Unreadable(error))
    case Ok(entry) =>
      if entry.0 !in call.files then Denied(NoSuchFile)
      else if Metadata(call.files[entry.0]).Err? then Denied(InvalidImage)
      else Granted(Program(call.files[entry.0], call.slot, EXECVE_STACK_PAGES, entry.1.arguments, entry.1.environment, call.active))
  }

  /** The program itself; an empty one stands for a call that is denied. */
  function ProgramOf(call: Execve): Program {
    match Requested(call)
    case Granted(program) => program
    case Denied(_) => Program([], 0, 0, [], [], [])
  }

  /** Why a call fails, if it does. */
  function Failure(call: Execve): Option<ExecveError> {
    match Requested(call)
    case Denied(error) => Some(error)
    case Granted(_) => if call.published then None else Some(NotTaken)
  }

  lemma FailureMeans(call: Execve)
    ensures Failure(call).None? <==> Requested(call).Granted? && call.published
    ensures Requested(call).Granted? && !call.published ==> Failure(call) == Some(NotTaken)
  {
  }

  /** A call gets the image of the file whose name its path resolves to, with the vectors in its memory,
      exactly when all of it is there and the image is accepted. */
  lemma GrantedExact(call: Execve, program: Program)
    ensures Requested(call) == Granted(program) <==>
            exists current: string, text: string, staging: Staging ::
              && call.directory == Some(current) && PathIn(call.user, call.path, text)
              && VectorsIn(call, staging) && program.arguments == staging.arguments && program.environment == staging.environment
              && Paths.Resolve(current, text) in call.files && program.image == call.files[Paths.Resolve(current, text)]
              && Metadata(program.image).Ok?
              && program.slot == call.slot && program.stackPages == 4 && program.active == call.active
  {
    hide Metadata, ReadStaging, ReadPath, PathIn, VectorsIn, Paths.Resolve;
    PathExact(call.user, call.path);
    forall staging: Staging ensures VectorsIn(call, staging) <==>
        ReadStaging(call.user, call.argumentArray, call.environmentArray) == EntryReader.Ok(staging)
    {
      VectorsExact(call, staging);
    }
  }

  /** The two vectors lie in the caller's memory, within the limits. */
  ghost predicate VectorsIn(call: Execve, staging: Staging) {
    && VectorIn(call.user, call.argumentArray, staging.arguments) && VectorIn(call.user, call.environmentArray, staging.environment)
    && Fits(staging.arguments, 8, 0) && Fits(staging.environment, 8, StringBytes(staging.arguments))
    && staging.copiedBytes == StringBytes(staging.arguments) + StringBytes(staging.environment)
  }

  lemma VectorsExact(call: Execve, staging: Staging)
    ensures VectorsIn(call, staging) <==>
            ReadStaging(call.user, call.argumentArray, call.environmentArray) == EntryReader.Ok(staging)
  {
    StagingExact(call.user, call.argumentArray, call.environmentArray, staging);
  }

  /** What each refusal means: the path or a vector cannot be read, there is no such file, or its image is
      not accepted, in this order. */
  lemma DeniedExact(call: Execve)
    ensures Requested(call) == Denied(NoSuchFile) <==>
            exists current: string, text: string, staging: Staging ::
              && call.directory == Some(current) && PathIn(call.user, call.path, text) && VectorsIn(call, staging)
              && Paths.Resolve(current, text) !in call.files
    ensures Requested(call) == Denied(InvalidImage) <==>
            exists current: string, text: string, staging: Staging ::
              && call.directory == Some(current) && PathIn(call.user, call.path, text) && VectorsIn(call, staging)
              && Paths.Resolve(current, text) in call.files && Metadata(call.files[Paths.Resolve(current, text)]).Err?
    ensures (exists error :: Requested(call) == Denied(Unreadable(error))) <==>
            || (forall text :: !PathIn(call.user, call.path, text)) || call.directory.None?
            || forall staging :: !VectorsIn(call, staging)
    ensures Requested(call) == Denied(Unreadable(NotImplemented)) <==>
            (exists text :: PathIn(call.user, call.path, text)) && call.directory.None?
    ensures Requested(call) != Denied(NotTaken)
  {
    hide Metadata, ReadStaging, ReadPath, PathIn, VectorsIn, Paths.Resolve;
    PathExact(call.user, call.path);
    forall staging: Staging ensures VectorsIn(call, staging) <==>
        ReadStaging(call.user, call.argumentArray, call.environmentArray) == EntryReader.Ok(staging)
    {
      VectorsExact(call, staging);
    }
    NeverNotImplemented(call.user, call.argumentArray, call.environmentArray);
  }

  lemma NeverNotImplemented(memory: UserMemory, argumentArray: nat, environmentArray: nat)
    ensures ReadStaging(memory, argumentArray, environmentArray) != Failed(NotImplemented)
  {
    if ReadStaging(memory, argumentArray, environmentArray).Failed? {
      StagingRefused(memory, argumentArray, environmentArray);
    }
  }

  /** An accepted call passes on the vectors the reader finds. */
  lemma RequestedVectors(call: Execve, staging: Staging)
    requires Requested(call).Granted? && ReadStaging(call.user, call.argumentArray, call.environmentArray) == EntryReader.Ok(staging)
    ensures ProgramOf(call).arguments == staging.arguments && ProgramOf(call).environment == staging.environment
  {
  }

  method ReadRequest(call: Execve) returns (r: Request)
    ensures r == Requested(call)
  {
    var entry := CopyStaging(call.user, call.directory, call.path, call.argumentArray, call.environmentArray);
    if entry.Failed? {
      return Denied(Unreadable(entry.error));
    }
    var path, staging := entry.value.0, entry.value.1;
    if path !in call.files {
      return Denied(NoSuchFile);
    }
    var image := call.files[path];
    var validated := LoadMetadata(image);
    if validated.Err? {
      return Denied(InvalidImage);
    }
    return Granted(Program(image, call.slot, EXECVE_STACK_PAGES, staging.arguments, staging.environment, call.active));
  }

  ghost predicate Runnable(call: Execve) {
    && |call.active| == ENTRIES && call.slot < STACK_SLOTS
    && (Requested(call).Granted? ==> StartsInWindow(ImageHeaders(ProgramOf(call).image)))
  }

  /** Whatever the reader accepts, the stack builder takes, and it always fits. */
  lemma RequestedStartable(call: Execve)
    requires Runnable(call) && Requested(call).Granted?
    ensures var program := ProgramOf(call);
            && Startable(program) && Metadata(program.image).Ok?
            && BlockFits(program.slot, program.stackPages, program.arguments, program.environment)
  {
    hide Metadata, ImageHeaders, ReadStaging, FinalPointer, NulFree;
    AcceptedStagingFits(call.user, call.argumentArray, call.environmentArray, SlotBase(call.slot));
    FourPagesFit(call.slot, ProgramOf(call).arguments, ProgramOf(call).environment);
  }

  /** The reasons of the image's own for which the kernel stops; the heap counts only once the new
      image is taken. */
  ghost predicate ExecveStops(call: Execve, reason: PanicReason) {
    && Requested(call).Granted?
    && var image := ProgramOf(call).image;
       || (reason == PageAlreadyMapped && SharedPage(ImageHeaders(image)))
       || (reason == PageInStackRegion && StackPage(ImageHeaders(image)))
       || (reason == HeapStartTooHigh && call.published && HeapTooHigh(image))
  }

  /** The candidate of a call stops the kernel only for those; its vectors never overflow the stack. */
  lemma CandidateReasons(call: Execve, reason: PanicReason)
    requires Runnable(call) && Requested(call).Granted? && CandidateStops(ProgramOf(call), reason)
    ensures ExecveStops(call, reason)
  {
    hide Metadata, ImageHeaders, Requested, ProgramOf, BlockFits;
    RequestedStartable(call);
  }
}
