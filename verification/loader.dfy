/** The loader's driver: check the command line, open and map the image, load every
    segment through the program-header iterator, and hand over to the loaded program.

    Opening the file, finding its size and mapping it whole are outside primitives, and
    their results are parameters here: `fd` is what opening `argv[1]` returned, and
    `image` is the mapped file, or None when that mapping failed. The hand-over itself
    (`startup`) is recorded as a value. The driver only exits after it if `startup`
    returns.
 */
module Loader {
  import opened Bits
  import opened Wrappers
  import opened Elf
  import opened ProgramHeaders
  import opened Segment

  const USAGE_MESSAGE: string := "Usage: ./loader <elf_file> [args...]\n"
  const OPEN_FAILED_MESSAGE: string := "Error: Failed to open file.\n"
  const IMAGE_MAP_FAILED_MESSAGE: string := "Error: Failed to map ELF file.\n"

  /** The call `startup(argc - 1, argv + 1, e_entry)`. */
  datatype Startup = Startup(argc: int, argv: seq<string>, entry: u32)

  /** How a run ends: the exit code, everything printed, the segment mappings attempted and
      the hand-over, if any. `Faulted` is a run that reads past the end of the file. */
  datatype Run = Exited(code: int, output: string, attempts: seq<Attempt>, startup: Option<Startup>) | Faulted

  /** `main` as written: the iterator's status is not looked at, so an image with a bad
      magic is still handed over to, at the entry address its header bytes happen to hold. */
  function RunLoader(argv: seq<string>, fd: int, image: Option<seq<u8>>, mmap: Mmap): (r: Run)
    ensures r.Exited? && r.code == 1 <==> |argv| < 2 || fd < 0 || image.None?
    ensures r.Exited? && r.code == 1 ==> r.startup.None? && r.attempts == []
    ensures r.Faulted? <==>
      && |argv| >= 2 && fd >= 0 && image.Some?
      && (Walk(image.value) == Failure(OutOfBounds) || |image.value| < E_ENTRY + 4)
    ensures r.Exited? && r.code != 1 ==>
      && r.code == 0
      && |image.value| >= E_ENTRY + 4
      && r.startup == Some(Startup(|argv| - 1, argv[1..], U32At(image.value, E_ENTRY)))
    ensures r.Exited? && r.code == 0 && MagicDiffers(image.value) ==>
      r.output == NOT_ELF_MESSAGE && r.attempts == []
    ensures r.Exited? && r.code == 0 && !MagicDiffers(image.value) ==>
      && Walk(image.value).Success?
      && Requests(r.attempts) == LoadRequests(Walk(image.value).value.1, fd)
      && Answered(mmap, r.attempts)
  {
    if |argv| < 2 then Exited(1, USAGE_MESSAGE, [], None)
    else if fd < 0 then Exited(1, OPEN_FAILED_MESSAGE, [], None)
    else
      match image
      case None => Exited(1, IMAGE_MAP_FAILED_MESSAGE, [], None)
      case Some(img) =>
        LoadedTable(img, fd, mmap);
        match ForEachPhdr(img, LoadVisitor(fd, mmap), LoadLog([], ""))
        case Undefined => Faulted
        case Returned(_, message, log) =>
          if |img| < E_ENTRY + 4 then Faulted
          else Exited(0, message + log.output, log.attempts,
                      Some(Startup(|argv| - 1, argv[1..], U32At(img, E_ENTRY))))
  }

  /** The driver with the iterator's status checked: a bad magic ends the run with exit
      code 1 and nothing is handed over. */
  function RunLoaderChecked(argv: seq<string>, fd: int, image: Option<seq<u8>>, mmap: Mmap): (r: Run)
    ensures r.Exited? && r.startup.Some? ==>
      && |argv| >= 2 && image.Some? && |image.value| >= EHDR_SIZE && image.value[..4] == ELF_MAGIC
      && r.startup.value == Startup(|argv| - 1, argv[1..], DecodeEhdr(image.value).e_entry)
    ensures r.Exited? && r.code == 1 <==>
      || |argv| < 2 || fd < 0 || image.None?
      || MagicDiffers(image.value)
    ensures r.Exited? && r.code == 0 ==>
      && Walk(image.value).Success?
      && Requests(r.attempts) == LoadRequests(Walk(image.value).value.1, fd)
      && Answered(mmap, r.attempts)
  {
    if |argv| < 2 then Exited(1, USAGE_MESSAGE, [], None)
    else if fd < 0 then Exited(1, OPEN_FAILED_MESSAGE, [], None)
    else
      match image
      case None => Exited(1, IMAGE_MAP_FAILED_MESSAGE, [], None)
      case Some(img) =>
        LoadedTable(img, fd, mmap);
        match ForEachPhdr(img, LoadVisitor(fd, mmap), LoadLog([], ""))
        case Undefined => Faulted
        case Returned(status, message, log) =>
          if status != 0 then Exited(1, message, [], None)
          else Exited(0, log.output, log.attempts,
                      Some(Startup(|argv| - 1, argv[1..], DecodeEhdr(img).e_entry)))
  }

  /** After the iterator has run the loading visitor over a valid table, one attempt has
      been made for each PT_LOAD entry, in table order, each with the primitive's answer. */
  lemma LoadedTable(img: seq<u8>, fd: int, mmap: Mmap)
    ensures var v := ForEachPhdr(img, LoadVisitor(fd, mmap), LoadLog([], ""));
      v.Returned? && v.status == 0 ==>
        && Walk(img).Success?
        && Requests(v.state.attempts) == LoadRequests(Walk(img).value.1, fd)
        && Answered(mmap, v.state.attempts)
  {
    if Walk(img).Success? {
      LoadAttempts(Walk(img).value.1, fd, mmap);
    }
  }

  /** Once the iterator has returned with status 0, the run prints what the visitor
      printed, keeps its attempts and hands over at the header's entry address. */
  lemma ReturnedRun(argv: seq<string>, fd: int, img: seq<u8>, mmap: Mmap, log: LoadLog)
    requires |argv| >= 2 && fd >= 0 && |img| >= E_ENTRY + 4
    requires ForEachPhdr(img, LoadVisitor(fd, mmap), LoadLog([], "")) == Returned(0, "", log)
    ensures RunLoader(argv, fd, Some(img), mmap)
         == Exited(0, log.output, log.attempts, Some(Startup(|argv| - 1, argv[1..], U32At(img, E_ENTRY))))
  {
  }

  /** The two drivers agree on every image whose magic is valid. */
  lemma CheckedAgreesOnValidImages(argv: seq<string>, fd: int, img: seq<u8>, mmap: Mmap)
    requires |img| >= 4 && img[..4] == ELF_MAGIC
    ensures RunLoaderChecked(argv, fd, Some(img), mmap) == RunLoader(argv, fd, Some(img), mmap)
  {
  }

  /** As written, an image whose magic is wrong is still handed over, with exit code 0. */
  lemma BadMagicIsStarted(argv: seq<string>, fd: int, img: seq<u8>, mmap: Mmap)
    requires |argv| >= 2 && fd >= 0
    requires |img| >= E_ENTRY + 4 && MagicDiffers(img)
    ensures RunLoader(argv, fd, Some(img), mmap)
         == Exited(0, NOT_ELF_MESSAGE, [], Some(Startup(|argv| - 1, argv[1..], U32At(img, E_ENTRY))))
  {
  }

  /** The input that shows it: 52 zero bytes, loaded as `loader prog`, start at address 0. */
  lemma ZeroImageIsStarted(mmap: Mmap)
    ensures var img := seq(EHDR_SIZE, _ => 0);
      RunLoader(["loader", "prog"], 3, Some(img), mmap)
      == Exited(0, NOT_ELF_MESSAGE, [], Some(Startup(1, ["prog"], 0)))
  {
    var img: seq<u8> := seq(EHDR_SIZE, _ => 0);
    assert img[0] == 0;
    BadMagicIsStarted(["loader", "prog"], 3, img, mmap);
  }
}
