/** The segment mapper: the memory-mapping request computed for a `PT_LOAD` program
    header, and the loader's visitor that asks for one mapping per loadable entry.

    The mapping itself is an outside primitive. Its outcome is a parameter `Mmap`, which
    may depend on the request and on everything attempted before it. A failed mapping is
    reported and ends only that entry's processing.
 */
module Segment {
  import opened Bits
  import opened Wrappers
  import opened Elf
  import opened Format
  import opened ProgramHeaders

  /** The protections the mapping asks for (the platform's PROT_* values are not modelled). */
  datatype Prot = Read | Write | Exec

  /** The mapping mode: MAP_PRIVATE | MAP_FIXED. */
  datatype MapFlag = Private | Fixed

  /** One mapping request: `length` bytes at `addr`, backed by file `fd` from `offset`.
      `padding` is how far into its page the segment's virtual address lies. */
  datatype MapRequest = MapRequest(
    addr: u32,
    length: u32,
    prot: set<Prot>,
    flags: set<MapFlag>,
    fd: int,
    offset: u32,
    padding: u32)

  /** The protections for `p_flags`: PF_R (4) gives Read, PF_W (2) Write, PF_X (1) Exec. */
  function ProtOf(flags: u32): (r: set<Prot>)
    ensures Read in r <==> (flags / 4) % 2 == 1
    ensures Write in r <==> (flags / 2) % 2 == 1
    ensures Exec in r <==> flags % 2 == 1
  {
    FlagSetMeaning(flags, PF_R);
    FlagSetMeaning(flags, PF_W);
    FlagSetMeaning(flags, PF_X);
    (if FlagSet(flags, PF_R) then {Read} else {})
    + (if FlagSet(flags, PF_W) then {Write} else {})
    + (if FlagSet(flags, PF_X) then {Exec} else {})
  }

  /** Bits 0, 1 and 2 of `f` are those of `f % 8`. */
  lemma LowBitsAgree(f: nat)
    ensures (f / 4) % 2 == ((f % 8) / 4) % 2
    ensures (f / 2) % 2 == ((f % 8) / 2) % 2
    ensures f % 2 == (f % 8) % 2
  {
    var q := f / 8;
    var r := f % 8;
    DivUnique(f, 4, 2 * q + r / 4, r % 4);
    DivUnique(2 * q + r / 4, 2, q, r / 4);
    DivUnique(f, 2, 4 * q + r / 2, r % 2);
    DivUnique(4 * q + r / 2, 2, 2 * q + (r / 2) / 2, (r / 2) % 2);
  }

  /** Only the three low bits of `p_flags` matter. */
  lemma ProtOfLowBits(f: u32, g: u32)
    requires f % 8 == g % 8
    ensures ProtOf(f) == ProtOf(g)
  {
    LowBitsAgree(f);
    LowBitsAgree(g);
  }

  /** The usual segment permissions, and no cross terms. */
  lemma ProtOfCommonFlags()
    ensures ProtOf(4) == {Read}
    ensures ProtOf(6) == {Read, Write}
    ensures ProtOf(5) == {Read, Exec}
    ensures ProtOf(7) == {Read, Write, Exec}
    ensures ProtOf(0) == {}
  {
  }

  /** The permission letters of the segment line name exactly the protections mapped. */
  lemma FlagsStrMatchesProt(f: u32)
    ensures 'R' in FlagsStr(f) <==> Read in ProtOf(f)
    ensures 'W' in FlagsStr(f) <==> Write in ProtOf(f)
    ensures 'E' in FlagsStr(f) <==> Exec in ProtOf(f)
  {
  }

  /** `load_phdr`'s computation: nothing for an entry that is not PT_LOAD; otherwise the
      page-aligned address and offset (`& 0xfffff000`), the padding (`p_vaddr & 0xfff`),
      the length `p_filesz + padding` in 32-bit arithmetic, the protections from
      `p_flags`, and a fixed, private mapping of `fd`. */
  function LoadRequest(p: Phdr, fd: int): (r: Option<MapRequest>)
    ensures r.None? <==> p.p_type != PT_LOAD
    ensures r.Some? ==>
      var m := r.value;
      && m.addr % PAGE_SIZE == 0 && m.addr <= p.p_vaddr < m.addr + PAGE_SIZE
      && m.offset % PAGE_SIZE == 0 && m.offset <= p.p_offset < m.offset + PAGE_SIZE
      && m.padding == p.p_vaddr % PAGE_SIZE
      && m.addr + m.padding == p.p_vaddr
      && m.length == (p.p_filesz + p.p_vaddr % PAGE_SIZE) % WORD_MODULUS
      && m.prot == ProtOf(p.p_flags)
      && m.flags == {Private, Fixed}
      && m.fd == fd
  {
    if p.p_type != PT_LOAD then None
    else
      var padding := PageOffset(p.p_vaddr);
      Some(MapRequest(
        addr := PageAlign(p.p_vaddr),
        length := AddU32(p.p_filesz, padding),
        prot := ProtOf(p.p_flags),
        flags := {Private, Fixed},
        fd := fd,
        offset := PageAlign(p.p_offset),
        padding := padding))
  }

  /** The request depends on nothing but the type, offset, virtual address, file size
      and flags: not on `p_paddr`, `p_memsz` or `p_align`. */
  lemma LoadRequestFields(p: Phdr, q: Phdr, fd: int)
    requires p.p_type == q.p_type && p.p_offset == q.p_offset && p.p_vaddr == q.p_vaddr
    requires p.p_filesz == q.p_filesz && p.p_flags == q.p_flags
    ensures LoadRequest(p, fd) == LoadRequest(q, fd)
  {
  }

  /** When the address and the offset lie at the same place `k` inside their pages, the
      padding is `k` and both are moved down by exactly `k`. */
  lemma CongruentSegment(p: Phdr, fd: int, k: nat)
    requires p.p_type == PT_LOAD
    requires p.p_vaddr % PAGE_SIZE == k && p.p_offset % PAGE_SIZE == k
    ensures var m := LoadRequest(p, fd).value;
      m.padding == k && m.addr == p.p_vaddr - k && m.offset == p.p_offset - k
  {
  }

  // ---------------------------------------------------------------------------
  // The loading visitor

  /** One mapping attempt and whether the primitive reported success. */
  datatype Attempt = Attempt(request: MapRequest, mapped: bool)

  /** The visitor's state: the attempts so far and the diagnostics printed. */
  datatype LoadLog = LoadLog(attempts: seq<Attempt>, output: string)

  /** The outcome of the mapping primitive, given the earlier attempts and the request. */
  type Mmap = (seq<Attempt>, MapRequest) -> bool

  const MAPPED_MESSAGE: string := "Segment mapped successfully.\n"
  const MAP_FAILED_MESSAGE: string := "Error: mmap failed for segment.\n"

  /** `load_phdr` on one entry: a PT_LOAD entry prints its line, asks for its mapping and
      reports the outcome; any other entry changes nothing. */
  function LoadPhdr(fd: int, mmap: Mmap, p: Phdr, log: LoadLog): (r: LoadLog)
    ensures p.p_type != PT_LOAD ==> r == log
    ensures p.p_type == PT_LOAD ==>
      && |r.output| >= |log.output| + |ReadelfLine(p)|
      && r.attempts == log.attempts + [Attempt(LoadRequest(p, fd).value, mmap(log.attempts, LoadRequest(p, fd).value))]
      && r.output[..|log.output|] == log.output
      && r.output[|log.output|..|log.output| + |ReadelfLine(p)|] == ReadelfLine(p)
      && var report := r.output[|log.output| + |ReadelfLine(p)|..];
         var mapped := mmap(log.attempts, LoadRequest(p, fd).value);
         && (report == MAPPED_MESSAGE <==> mapped)
         && (report == MAP_FAILED_MESSAGE <==> !mapped)
  {
    match LoadRequest(p, fd)
    case None => log
    case Some(req) =>
      var ok := mmap(log.attempts, req);
      var report := if ok then MAPPED_MESSAGE else MAP_FAILED_MESSAGE;
      var r := LoadLog(log.attempts + [Attempt(req, ok)], log.output + ReadelfLine(p) + report);
      assert r.output == log.output + ReadelfLine(p) + report;
      Middle(log.output, ReadelfLine(p), report);
      Suffix(log.output + ReadelfLine(p), report);
      assert |MAPPED_MESSAGE| != |MAP_FAILED_MESSAGE|;
      r
  }

  function LoadVisitor(fd: int, mmap: Mmap): (Phdr, LoadLog) -> LoadLog
  {
    (p, log) => LoadPhdr(fd, mmap, p, log)
  }

  /** The requests of the PT_LOAD entries of `ps`, in order: the reference for what the
      loader asks of the mapping primitive. */
  function LoadRequests(ps: seq<Phdr>, fd: int): seq<MapRequest>
  {
    if |ps| == 0 then []
    else
      var init := LoadRequests(ps[..|ps| - 1], fd);
      match LoadRequest(ps[|ps| - 1], fd)
      case None => init
      case Some(m) => init + [m]
  }

  function Requests(attempts: seq<Attempt>): seq<MapRequest>
  {
    seq(|attempts|, k requires 0 <= k < |attempts| => attempts[k].request)
  }

  /** Every attempt records the primitive's answer for it, given the attempts before it. */
  ghost predicate Answered(mmap: Mmap, attempts: seq<Attempt>)
  {
    forall k :: 0 <= k < |attempts| ==> attempts[k].mapped == mmap(attempts[..k], attempts[k].request)
  }

  /** An attempt answered given everything before it extends an answered history. */
  lemma AnsweredAppend(mmap: Mmap, attempts: seq<Attempt>, a: Attempt)
    requires Answered(mmap, attempts) && a.mapped == mmap(attempts, a.request)
    ensures Answered(mmap, attempts + [a])
    ensures Requests(attempts + [a]) == Requests(attempts) + [a.request]
  {
    var after := attempts + [a];
    forall k | 0 <= k < |after|
      ensures after[k].mapped == mmap(after[..k], after[k].request)
    {
      if k < |attempts| {
        assert after[..k] == attempts[..k];
      } else {
        assert after[..k] == attempts;
      }
    }
  }

  /** Loading a table asks for exactly the requests of its PT_LOAD entries, in table order,
      one attempt each, whatever the primitive answers: a failure never stops the walk. */
  lemma {:induction false} LoadAttempts(ps: seq<Phdr>, fd: int, mmap: Mmap)
    ensures var log := Fold(ps, LoadVisitor(fd, mmap), LoadLog([], ""));
      && Requests(log.attempts) == LoadRequests(ps, fd)
      && Answered(mmap, log.attempts)
  {
    if |ps| > 0 {
      var init := ps[..|ps| - 1];
      var p := ps[|ps| - 1];
      LoadAttempts(init, fd, mmap);
      var before := Fold(init, LoadVisitor(fd, mmap), LoadLog([], ""));
      var after := Fold(ps, LoadVisitor(fd, mmap), LoadLog([], ""));
      assert after == LoadPhdr(fd, mmap, p, before);
      if p.p_type == PT_LOAD {
        var req := LoadRequest(p, fd).value;
        AnsweredAppend(mmap, before.attempts, Attempt(req, mmap(before.attempts, req)));
      }
    }
  }
}
