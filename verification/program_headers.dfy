/** The program-header iterator: check the ELF magic, then hand every entry of the
    program-header table to a visitor, in table order.

    The iterator reads the header and the table in place and performs no bounds checks.
    Here a read past the end of the file is the error `OutOfBounds`. The magic is compared byte
    by byte and the first byte that differs ends the check, so an image shorter than four
    bytes is out of bounds only if every byte it has matches. After the magic the header
    needs all 52 bytes, and a non-empty table needs `e_phnum` records of 32 bytes each,
    starting at `e_phoff`; an empty table is never read. The stride is the size of the record, not
    `e_phentsize`. Nothing else is checked: not the class, byte order, version or entry.
 */
module ProgramHeaders {
  import opened Bits
  import opened Wrappers
  import opened Elf

  datatype WalkError = BadMagic | OutOfBounds

  /** The diagnostic printed when the magic does not match. */
  const NOT_ELF_MESSAGE: string := "Error: Not a valid ELF file.\n"

  /** The `n` records of the table at `off`, in index order. */
  function Table(img: seq<u8>, off: nat, n: nat): seq<Phdr>
    requires off + PHDR_SIZE * n <= |img|
  {
    seq(n, i requires 0 <= i < n => DecodePhdr(img, off + PHDR_SIZE * i))
  }

  /** The ELF header and the program-header table of an image. */
  function Walk(img: seq<u8>): (r: Result<(Ehdr, seq<Phdr>), WalkError>)
    ensures r == Failure(BadMagic) <==> MagicDiffers(img)
    ensures r.Success? <==>
      && |img| >= EHDR_SIZE && img[..4] == ELF_MAGIC
      && (U16At(img, E_PHNUM) == 0 || U32At(img, E_PHOFF) + PHDR_SIZE * U16At(img, E_PHNUM) <= |img|)
    ensures r.Success? ==>
      var (h, phdrs) := r.value;
      && h == DecodeEhdr(img)
      && |phdrs| == h.e_phnum
      && forall i :: 0 <= i < |phdrs| ==> phdrs[i] == DecodePhdr(img, h.e_phoff + PHDR_SIZE * i)
  {
    match CheckMagic(img)
    case Truncated => Failure(OutOfBounds)
    case Differs => Failure(BadMagic)
    case Matches =>
      if |img| < EHDR_SIZE then Failure(OutOfBounds)
      else
        var h := DecodeEhdr(img);
        if h.e_phnum == 0 then Success((h, []))
        else if h.e_phoff + PHDR_SIZE * h.e_phnum > |img| then Failure(OutOfBounds)
        else Success((h, Table(img, h.e_phoff, h.e_phnum)))
  }

  // ---------------------------------------------------------------------------
  // Visiting the entries

  /** The state after `visit` has been applied to every entry of `ps`, first to last. */
  function Fold<S>(ps: seq<Phdr>, visit: (Phdr, S) -> S, s: S): S
  {
    if |ps| == 0 then s else visit(ps[|ps| - 1], Fold(ps[..|ps| - 1], visit, s))
  }

  /** What the iterator returns: its status (1 for a bad magic, 0 otherwise), the
      diagnostic it printed itself, and the visitor's final state. */
  datatype Visit<S> = Returned(status: int, message: string, state: S) | Undefined

  /** The iterator as a function of the image, the visitor and the initial context. */
  function ForEachPhdr<S>(img: seq<u8>, visit: (Phdr, S) -> S, ctx: S): (r: Visit<S>)
    ensures r.Undefined? <==> Walk(img) == Failure(OutOfBounds)
    ensures r.Returned? ==> r.status == 0 || r.status == 1
    ensures r.Returned? && r.status == 1 <==> MagicDiffers(img)
    ensures r.Returned? && r.status == 1 ==> r.message == NOT_ELF_MESSAGE && r.state == ctx
    ensures r.Returned? && r.status == 0 ==> r.message == ""
  {
    match Walk(img)
    case Failure(BadMagic) => Returned(1, NOT_ELF_MESSAGE, ctx)
    case Failure(OutOfBounds) => Undefined
    case Success((_, phdrs)) => Returned(0, "", Fold(phdrs, visit, ctx))
  }

  /** The iterator as a method: the magic comparisons, the header reads, then the loop.
      `calls` lists the offset of the record handed to each call of the visitor, in call
      order. */
  method RunForEachPhdr<S>(img: seq<u8>, visit: (Phdr, S) -> S, ctx: S)
    returns (r: Visit<S>, calls: seq<nat>)
    ensures r == ForEachPhdr(img, visit, ctx)
    ensures r.Returned? && r.status == 1 ==> calls == [] && r.state == ctx
    ensures r.Returned? && r.status == 0 ==>
      && |img| >= EHDR_SIZE
      && |calls| == U16At(img, E_PHNUM)
      && forall i :: 0 <= i < |calls| ==> calls[i] == U32At(img, E_PHOFF) + PHDR_SIZE * i
  {
    calls := [];
    var magic := CheckMagic(img);
    if magic == Truncated {
      return Undefined, calls;
    }
    if magic == Differs {
      return Returned(1, NOT_ELF_MESSAGE, ctx), calls;
    }
    if |img| < EHDR_SIZE {
      return Undefined, calls;
    }
    var phoff := U32At(img, E_PHOFF);
    var phnum := U16At(img, E_PHNUM);
    if phnum == 0 {
      return Returned(0, "", ctx), calls;
    }
    if phoff + PHDR_SIZE * phnum > |img| {
      return Undefined, calls;
    }
    var s;
    s, calls := VisitTable(img, phoff, phnum, visit, ctx);
    r := Returned(0, "", s);
  }

  /** The iterator's `for` loop over a table of `n` records at `off`: the visitor is called
      once per record, in index order; `calls` lists the offsets it was called at. */
  method VisitTable<S>(img: seq<u8>, off: nat, n: nat, visit: (Phdr, S) -> S, ctx: S)
    returns (s: S, calls: seq<nat>)
    requires off + PHDR_SIZE * n <= |img|
    ensures s == Fold(Table(img, off, n), visit, ctx)
    ensures |calls| == n && forall j :: 0 <= j < n ==> calls[j] == off + PHDR_SIZE * j
  {
    ghost var phdrs := Table(img, off, n);
    s := ctx;
    calls := [];
    var i := 0;
    while i < n
      invariant 0 <= i <= n
      invariant |calls| == i
      invariant forall j :: 0 <= j < i ==> calls[j] == off + PHDR_SIZE * j
      invariant s == Fold(phdrs[..i], visit, ctx)
    {
      var at := off + PHDR_SIZE * i;
      FoldStep(phdrs, i, visit, ctx);
      s := visit(DecodePhdr(img, at), s);
      calls := calls + [at];
      i := i + 1;
    }
    assert phdrs[..n] == phdrs;
  }

  /** One more entry folds into the state reached before it. */
  lemma FoldStep<S>(ps: seq<Phdr>, i: nat, visit: (Phdr, S) -> S, ctx: S)
    requires i < |ps|
    ensures Fold(ps[..i + 1], visit, ctx) == visit(ps[i], Fold(ps[..i], visit, ctx))
  {
    assert ps[..i + 1][..i] == ps[..i];
  }

  // ---------------------------------------------------------------------------
  // Properties of the iteration

  /** The visitor that records every entry it is given. */
  function Record(p: Phdr, seen: seq<Phdr>): seq<Phdr>
  {
    seen + [p]
  }

  /** Folding the recording visitor lists the entries themselves, in order. */
  lemma {:induction false} FoldRecord(ps: seq<Phdr>, seen: seq<Phdr>)
    ensures Fold(ps, Record, seen) == seen + ps
  {
    if |ps| > 0 {
      var init := ps[..|ps| - 1];
      FoldRecord(init, seen);
      assert init + [ps[|ps| - 1]] == ps;
    }
  }

  /** With a valid magic the visitor sees exactly `e_phnum` entries, entry `i` being the
      record at `e_phoff + 32 * i`, in ascending `i`, and the status is 0. */
  lemma VisitsEveryEntry(img: seq<u8>)
    requires ForEachPhdr(img, Record, []).Returned?
    requires |img| >= 4 && img[..4] == ELF_MAGIC
    ensures |img| >= EHDR_SIZE
    ensures var r := ForEachPhdr(img, Record, []);
      && r.status == 0
      && |r.state| == U16At(img, E_PHNUM)
      && forall i :: 0 <= i < |r.state| ==>
           r.state[i] == DecodePhdr(img, U32At(img, E_PHOFF) + PHDR_SIZE * i)
  {
    var (_, phdrs) := Walk(img).value;
    FoldRecord(phdrs, []);
  }

  /** With a bad magic the visitor is never called, whatever it is: the state comes back
      untouched and the status is 1. */
  lemma BadMagicVisitsNothing<S>(img: seq<u8>, visit: (Phdr, S) -> S, ctx: S)
    requires MagicDiffers(img)
    ensures ForEachPhdr(img, visit, ctx) == Returned(1, NOT_ELF_MESSAGE, ctx)
  {
  }
}
