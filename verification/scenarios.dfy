/** Worked images: a one-segment executable loaded end to end, an unaligned segment, a
    table whose only entry is not loadable, and images the walk rejects. */
module Scenarios {
  import opened Bits
  import opened Wrappers
  import opened Elf
  import opened ProgramHeaders
  import opened Segment
  import opened Loader

  /** An executable header with one program header right after it. */
  function OneSegmentHeader(entry: u32): (h: Ehdr)
    ensures |h.e_ident| == EI_NIDENT && h.e_phoff == EHDR_SIZE && h.e_phnum == 1
  {
    Ehdr(ELF_MAGIC + seq(EI_NIDENT - 4, _ => 0), 2, 3, 1, entry, EHDR_SIZE, 0, 0,
         EHDR_SIZE, PHDR_SIZE, 1, 0, 0, 0)
  }

  function OneSegmentImage(entry: u32, p: Phdr): (img: seq<u8>)
    ensures |img| == EHDR_SIZE + PHDR_SIZE
  {
    EncodeEhdr(OneSegmentHeader(entry)) + EncodePhdr(p)
  }

  /** The image holds the header and the one entry it was built from. */
  lemma OneSegmentWalk(entry: u32, p: Phdr)
    ensures Walk(OneSegmentImage(entry, p)) == Success((OneSegmentHeader(entry), [p]))
  {
    var h := OneSegmentHeader(entry);
    var img := OneSegmentImage(entry, p);
    assert img[..EHDR_SIZE] == EncodeEhdr(h);
    assert img[EHDR_SIZE..EHDR_SIZE + PHDR_SIZE] == EncodePhdr(p);
    EhdrDecode(img, h);
    PhdrDecode(img, EHDR_SIZE, p);
    assert img[..4] == EncodeEhdr(h)[..4] == h.e_ident[..4] == ELF_MAGIC;
    assert CheckMagic(img) == Matches;
    assert Table(img, EHDR_SIZE, 1) == [p];
  }

  /** Loading a one-entry image asks for that entry's mapping alone, if it is PT_LOAD, and
      hands over at the header's entry address. */
  lemma OneSegmentRun(entry: u32, p: Phdr, fd: int, mmap: Mmap)
    requires fd >= 0
    ensures var r := RunLoader(["loader", "prog"], fd, Some(OneSegmentImage(entry, p)), mmap);
      && r.Exited? && r.code == 0
      && r.startup == Some(Startup(1, ["prog"], entry))
      && r.attempts == (if p.p_type == PT_LOAD
                        then [Attempt(LoadRequest(p, fd).value, mmap([], LoadRequest(p, fd).value))]
                        else [])
  {
    var img := OneSegmentImage(entry, p);
    var argv := ["loader", "prog"];
    OneSegmentLoads(entry, p, fd, mmap);
    ReturnedRun(argv, fd, img, mmap, LoadPhdr(fd, mmap, p, LoadLog([], "")));
    EhdrDecode(img, OneSegmentHeader(entry));
    assert argv[1..] == ["prog"];
  }

  /** The iterator hands the loading visitor the one entry, and nothing else. */
  lemma OneSegmentLoads(entry: u32, p: Phdr, fd: int, mmap: Mmap)
    ensures ForEachPhdr(OneSegmentImage(entry, p), LoadVisitor(fd, mmap), LoadLog([], ""))
         == Returned(0, "", LoadPhdr(fd, mmap, p, LoadLog([], "")))
  {
    OneSegmentWalk(entry, p);
    assert [p][..0] == [];
    var visit := LoadVisitor(fd, mmap);
    var empty := LoadLog([], "");
    assert Fold([p][..0], visit, empty) == empty;
    assert Fold([p], visit, empty) == visit(p, empty) == LoadPhdr(fd, mmap, p, empty);
  }

  /** A loadable, readable and executable segment at 0x8048000, 0x100 bytes from offset 0. */
  const TEXT: Phdr := Phdr(PT_LOAD, 0, 0x804_8000, 0x804_8000, 0x100, 0x100, 5, 0x1000)

  lemma PageAlignedSegment(fd: int)
    ensures LoadRequest(TEXT, fd)
         == Some(MapRequest(0x804_8000, 0x100, {Read, Exec}, {Private, Fixed}, fd, 0, 0))
  {
    ProtOfCommonFlags();
  }

  /** The same segment 0xABC bytes into its page: the mapping starts at the page and is
      longer by the padding. */
  lemma UnalignedSegment(fd: int)
    ensures LoadRequest(TEXT.(p_vaddr := 0x804_8ABC), fd)
         == Some(MapRequest(0x804_8000, 0x100 + 0xABC, {Read, Exec}, {Private, Fixed}, fd, 0, 0xABC))
  {
    ProtOfCommonFlags();
  }

  /** A segment whose file size plus padding passes 2^32 gets a wrapped-around length. */
  lemma WrappedLength(fd: int)
    ensures LoadRequest(TEXT.(p_vaddr := 0x804_8010, p_filesz := 0xffff_fff8), fd).value.length == 8
  {
  }

  /** A DYNAMIC entry is visited but asks for no mapping. */
  lemma DynamicEntryIsVisited(fd: nat, mmap: Mmap)
    ensures var p := TEXT.(p_type := 2);
      && ForEachPhdr(OneSegmentImage(0, p), Record, []) == Returned(0, "", [p])
      && RunLoader(["loader", "prog"], fd, Some(OneSegmentImage(0, p)), mmap).attempts == []
  {
    var p := TEXT.(p_type := 2);
    OneSegmentRecords(0, p);
    OneSegmentRun(0, p, fd, mmap);
  }

  /** The recording visitor sees the one entry of a one-entry image. */
  lemma OneSegmentRecords(entry: u32, p: Phdr)
    ensures ForEachPhdr(OneSegmentImage(entry, p), Record, []) == Returned(0, "", [p])
  {
    OneSegmentWalk(entry, p);
    FoldRecord([p], []);
    assert [] + [p] == [p];
  }

  /** An image that ends inside a matching magic, or whose table runs past its end, reads
      past the end of the file. */
  lemma TruncatedImages()
    ensures Walk([0x7F, 0x45]) == Failure(OutOfBounds)
    ensures Walk(OneSegmentImage(0, TEXT)[..EHDR_SIZE]) == Failure(OutOfBounds)
  {
    var img := OneSegmentImage(0, TEXT)[..EHDR_SIZE];
    var h := OneSegmentHeader(0);
    assert img == EncodeEhdr(h);
    EhdrDecode(img, h);
    assert img[..4] == h.e_ident[..4] == ELF_MAGIC;
  }

  /** The comparison stops at the first byte that differs, so a one-byte image that is not
      0x7F has a bad magic: it is not a short read. */
  lemma ShortBadMagic()
    ensures Walk([0x00]) == Failure(BadMagic)
    ensures ForEachPhdr([0x00], Record, []) == Returned(1, NOT_ELF_MESSAGE, [])
  {
  }

  /** An empty table is never read, wherever `e_phoff` points. */
  lemma EmptyTableAnywhere(entry: u32)
    ensures var h := OneSegmentHeader(entry).(e_phoff := 0xffff_ffff, e_phnum := 0);
      Walk(EncodeEhdr(h)) == Success((h, []))
  {
    var h := OneSegmentHeader(entry).(e_phoff := 0xffff_ffff, e_phnum := 0);
    var img := EncodeEhdr(h);
    assert img[..EHDR_SIZE] == img;
    EhdrDecode(img, h);
    assert img[..4] == h.e_ident[..4] == ELF_MAGIC;
    assert CheckMagic(img) == Matches;
  }

  /** One corrupted magic byte makes the walk fail and the visitor see nothing. */
  lemma CorruptedMagic()
    ensures var img := OneSegmentImage(0, TEXT)[1 := 0x46];
      Walk(img) == Failure(BadMagic) && ForEachPhdr(img, Record, []) == Returned(1, NOT_ELF_MESSAGE, [])
  {
    var img := OneSegmentImage(0, TEXT)[1 := 0x46];
    assert img[..4][1] == 0x46;
  }
}
