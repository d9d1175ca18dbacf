/** The two fixed-layout records of a 32-bit ELF file, the ELF header and the program
    header, as the loader sees them: read in place from the file image, little-endian
    (the loader runs on a 32-bit x86 host and casts the image to its own structs).
 */
module Elf {
  import opened Bits

  /** `sizeof(Elf32_Ehdr)` and `sizeof(Elf32_Phdr)`: neither struct has padding. */
  const EHDR_SIZE: nat := 52
  const PHDR_SIZE: nat := 32
  const EI_NIDENT: nat := 16

  /** `e_ident[EI_MAG0..EI_MAG3]`: 0x7F followed by 'E', 'L', 'F'. */
  const ELF_MAGIC: seq<u8> := [0x7F, 0x45, 0x4C, 0x46]

  /** Program header types (ELF specification, Book I, "Program Header"). */
  const PT_LOAD: u32 := 1

  // Field offsets of Elf32_Ehdr.
  const E_TYPE: nat := 16
  const E_MACHINE: nat := 18
  const E_VERSION: nat := 20
  const E_ENTRY: nat := 24
  const E_PHOFF: nat := 28
  const E_SHOFF: nat := 32
  const E_FLAGS: nat := 36
  const E_EHSIZE: nat := 40
  const E_PHENTSIZE: nat := 42
  const E_PHNUM: nat := 44
  const E_SHENTSIZE: nat := 46
  const E_SHNUM: nat := 48
  const E_SHSTRNDX: nat := 50

  datatype Ehdr = Ehdr(
    e_ident: seq<u8>,
    e_type: u16,
    e_machine: u16,
    e_version: u32,
    e_entry: u32,
    e_phoff: u32,
    e_shoff: u32,
    e_flags: u32,
    e_ehsize: u16,
    e_phentsize: u16,
    e_phnum: u16,
    e_shentsize: u16,
    e_shnum: u16,
    e_shstrndx: u16)

  datatype Phdr = Phdr(
    p_type: u32,
    p_offset: u32,
    p_vaddr: u32,
    p_paddr: u32,
    p_filesz: u32,
    p_memsz: u32,
    p_flags: u32,
    p_align: u32)

  // ---------------------------------------------------------------------------
  // Little-endian words

  function U16At(img: seq<u8>, off: nat): u16
    requires off + 2 <= |img|
  {
    img[off] as int + 0x100 * img[off + 1] as int
  }

  function U32At(img: seq<u8>, off: nat): u32
    requires off + 4 <= |img|
  {
    img[off] as int + 0x100 * img[off + 1] as int + 0x1_0000 * img[off + 2] as int
    + 0x100_0000 * img[off + 3] as int
  }

  function EncodeU16(v: u16): (r: seq<u8>)
    ensures |r| == 2
  {
    [v % 0x100, v / 0x100]
  }

  function EncodeU32(v: u32): (r: seq<u8>)
    ensures |r| == 4
  {
    [v % 0x100, (v / 0x100) % 0x100, (v / 0x1_0000) % 0x100, v / 0x100_0000]
  }

  /** Consecutive little-endian half-words. */
  function EncodeHalves(vs: seq<u16>): (r: seq<u8>)
    ensures |r| == 2 * |vs|
  {
    seq(2 * |vs|, i requires 0 <= i < 2 * |vs| => EncodeU16(vs[i / 2])[i % 2])
  }

  /** Consecutive little-endian words. */
  function EncodeWords(vs: seq<u32>): (r: seq<u8>)
    ensures |r| == 4 * |vs|
  {
    seq(4 * |vs|, i requires 0 <= i < 4 * |vs| => EncodeU32(vs[i / 4])[i % 4])
  }

  /** Reading back the two bytes of an encoded half-word gives the half-word. */
  lemma U16Decode(img: seq<u8>, off: nat, v: u16)
    requires off + 2 <= |img| && img[off..off + 2] == EncodeU16(v)
    ensures U16At(img, off) == v
  {
    assert img[off] == EncodeU16(v)[0] && img[off + 1] == EncodeU16(v)[1];
  }

  /** Reading back the four bytes of an encoded word gives the word. */
  lemma U32Decode(img: seq<u8>, off: nat, v: u32)
    requires off + 4 <= |img| && img[off..off + 4] == EncodeU32(v)
    ensures U32At(img, off) == v
  {
    var e := EncodeU32(v);
    assert img[off] == e[0] && img[off + 1] == e[1] && img[off + 2] == e[2] && img[off + 3] == e[3];
    WordBytes(v);
  }

  /** A word is the sum of its four bytes, least significant first. */
  lemma WordBytes(v: u32)
    ensures v == v % 0x100 + 0x100 * ((v / 0x100) % 0x100) + 0x1_0000 * ((v / 0x1_0000) % 0x100)
                 + 0x100_0000 * (v / 0x100_0000)
  {
    var q1 := v / 0x100;
    var q2 := q1 / 0x100;
    DivDiv(v, 0x100, 0x100);
    DivDiv(v, 0x1_0000, 0x100);
    assert v == 0x100 * q1 + v % 0x100;
    assert q1 == 0x100 * q2 + q1 % 0x100;
    assert q2 == 0x100 * (q2 / 0x100) + q2 % 0x100;
  }

  /** Encoding a decoded half-word reproduces the bytes it was read from. */
  lemma U16Encode(img: seq<u8>, off: nat)
    requires off + 2 <= |img|
    ensures EncodeU16(U16At(img, off)) == img[off..off + 2]
  {
  }

  /** Encoding a decoded word reproduces the bytes it was read from. */
  lemma U32Encode(img: seq<u8>, off: nat)
    requires off + 4 <= |img|
    ensures EncodeU32(U32At(img, off)) == img[off..off + 4]
  {
    var b0, b1, b2, b3 := img[off] as int, img[off + 1] as int, img[off + 2] as int, img[off + 3] as int;
    var v := U32At(img, off);
    DivUnique(v, 0x100, b1 + 0x100 * b2 + 0x1_0000 * b3, b0);
    DivUnique(v, 0x1_0000, b2 + 0x100 * b3, b0 + 0x100 * b1);
    DivUnique(v, 0x100_0000, b3, b0 + 0x100 * b1 + 0x1_0000 * b2);
    DivUnique(b1 + 0x100 * b2 + 0x1_0000 * b3, 0x100, b2 + 0x100 * b3, b1);
    DivUnique(b2 + 0x100 * b3, 0x100, b3, b2);
  }

  // ---------------------------------------------------------------------------
  // The ELF identification

  /** The bytes of the image that overlap `e_ident[0..3]` disagree with the magic. */
  predicate MagicDiffers(img: seq<u8>)
  {
    var n := if |img| < 4 then |img| else 4;
    img[..n] != ELF_MAGIC[..n]
  }

  /** The outcome of comparing `e_ident[0..3]` with the magic. */
  datatype MagicCheck = Matches | Differs | Truncated

  /** The four comparisons of `e_ident[0..3]` against the magic, in order, stopping at the
      first byte that differs. `Truncated` is a comparison that would read past the end
      of the image. */
  function CheckMagic(img: seq<u8>): (r: MagicCheck)
    ensures r == Matches <==> |img| >= 4 && img[..4] == ELF_MAGIC
    ensures r == Differs <==> MagicDiffers(img)
    ensures r == Truncated ==> |img| < 4
  {
    if |img| < 1 then Truncated
    else if img[0] != 0x7F then DiffersAt(img, 0); Differs
    else if |img| < 2 then MatchesUpTo(img, 1); Truncated
    else if img[1] != 'E' as int then DiffersAt(img, 1); Differs
    else if |img| < 3 then MatchesUpTo(img, 2); Truncated
    else if img[2] != 'L' as int then DiffersAt(img, 2); Differs
    else if |img| < 4 then MatchesUpTo(img, 3); Truncated
    else if img[3] != 'F' as int then DiffersAt(img, 3); Differs
    else MatchesUpTo(img, 4); Matches
  }

  /** One byte of the magic that differs, inside the image, makes the image differ. */
  lemma DiffersAt(img: seq<u8>, i: nat)
    requires i < 4 && i < |img| && img[i] != ELF_MAGIC[i]
    ensures MagicDiffers(img)
  {
    var n := if |img| < 4 then |img| else 4;
    assert img[..n][i] != ELF_MAGIC[..n][i];
  }

  /** The first `n` bytes agree with the magic one by one. */
  lemma MatchesUpTo(img: seq<u8>, n: nat)
    requires n <= 4 && n <= |img| && forall j :: 0 <= j < n ==> img[j] == ELF_MAGIC[j]
    ensures img[..n] == ELF_MAGIC[..n]
  {
  }

  // ---------------------------------------------------------------------------
  // Decoding and encoding the records

  function DecodeEhdr(img: seq<u8>): (h: Ehdr)
    requires |img| >= EHDR_SIZE
    ensures h.e_ident == img[..EI_NIDENT] && |h.e_ident| == EI_NIDENT
    ensures h.e_entry == U32At(img, E_ENTRY)
    ensures h.e_phoff == U32At(img, E_PHOFF) && h.e_phnum == U16At(img, E_PHNUM)
  {
    Ehdr(img[..EI_NIDENT],
         U16At(img, E_TYPE), U16At(img, E_MACHINE), U32At(img, E_VERSION),
         U32At(img, E_ENTRY), U32At(img, E_PHOFF), U32At(img, E_SHOFF), U32At(img, E_FLAGS),
         U16At(img, E_EHSIZE), U16At(img, E_PHENTSIZE), U16At(img, E_PHNUM),
         U16At(img, E_SHENTSIZE), U16At(img, E_SHNUM), U16At(img, E_SHSTRNDX))
  }

  function EncodeEhdr(h: Ehdr): (r: seq<u8>)
    requires |h.e_ident| == EI_NIDENT
    ensures |r| == EHDR_SIZE
  {
    h.e_ident
    + EncodeHalves([h.e_type, h.e_machine])
    + EncodeWords([h.e_version, h.e_entry, h.e_phoff, h.e_shoff, h.e_flags])
    + EncodeHalves([h.e_ehsize, h.e_phentsize, h.e_phnum, h.e_shentsize, h.e_shnum, h.e_shstrndx])
  }

  function DecodePhdr(img: seq<u8>, off: nat): (p: Phdr)
    requires off + PHDR_SIZE <= |img|
    ensures PhdrWords(p) == seq(8, k requires 0 <= k < 8 => U32At(img, off + 4 * k))
  {
    Phdr(U32At(img, off), U32At(img, off + 4), U32At(img, off + 8), U32At(img, off + 12),
         U32At(img, off + 16), U32At(img, off + 20), U32At(img, off + 24), U32At(img, off + 28))
  }

  function PhdrWords(p: Phdr): (ws: seq<u32>)
    ensures |ws| == 8
  {
    [p.p_type, p.p_offset, p.p_vaddr, p.p_paddr, p.p_filesz, p.p_memsz, p.p_flags, p.p_align]
  }

  function EncodePhdr(p: Phdr): (r: seq<u8>)
    ensures |r| == PHDR_SIZE
  {
    EncodeWords(PhdrWords(p))
  }


  // ---------------------------------------------------------------------------
  // Round trips: the decoders read exactly the bytes the encoders write

  lemma HalvesDecode(img: seq<u8>, off: nat, vs: seq<u16>, k: nat)
    requires off + 2 * |vs| <= |img| && img[off..off + 2 * |vs|] == EncodeHalves(vs)
    requires k < |vs|
    ensures U16At(img, off + 2 * k) == vs[k]
  {
    var e := EncodeHalves(vs);
    assert img[off + 2 * k] == e[2 * k];
    assert img[off + 2 * k + 1] == e[2 * k + 1];
    assert img[off + 2 * k..off + 2 * k + 2] == EncodeU16(vs[k]);
    U16Decode(img, off + 2 * k, vs[k]);
  }

  lemma WordsDecode(img: seq<u8>, off: nat, vs: seq<u32>, k: nat)
    requires off + 4 * |vs| <= |img| && img[off..off + 4 * |vs|] == EncodeWords(vs)
    requires k < |vs|
    ensures U32At(img, off + 4 * k) == vs[k]
  {
    var e := EncodeWords(vs);
    assert img[off + 4 * k] == e[4 * k];
    assert img[off + 4 * k + 1] == e[4 * k + 1];
    assert img[off + 4 * k + 2] == e[4 * k + 2];
    assert img[off + 4 * k + 3] == e[4 * k + 3];
    assert img[off + 4 * k..off + 4 * k + 4] == EncodeU32(vs[k]);
    U32Decode(img, off + 4 * k, vs[k]);
  }

  /** A program header written at `off` is read back unchanged. */
  lemma PhdrDecode(img: seq<u8>, off: nat, p: Phdr)
    requires off + PHDR_SIZE <= |img| && img[off..off + PHDR_SIZE] == EncodePhdr(p)
    ensures DecodePhdr(img, off) == p
  {
    var ws := PhdrWords(p);
    WordsDecode(img, off, ws, 0);
    WordsDecode(img, off, ws, 1);
    WordsDecode(img, off, ws, 2);
    WordsDecode(img, off, ws, 3);
    WordsDecode(img, off, ws, 4);
    WordsDecode(img, off, ws, 5);
    WordsDecode(img, off, ws, 6);
    WordsDecode(img, off, ws, 7);
  }

  lemma WordsEncode(img: seq<u8>, off: nat, n: nat)
    requires off + 4 * n <= |img|
    ensures EncodeWords(seq(n, k requires 0 <= k < n => U32At(img, off + 4 * k))) == img[off..off + 4 * n]
  {
    var vs := seq(n, k requires 0 <= k < n => U32At(img, off + 4 * k));
    var e := EncodeWords(vs);
    forall i | 0 <= i < 4 * n
      ensures e[i] == img[off + i]
    {
      var k := i / 4;
      U32Encode(img, off + 4 * k);
      assert e[i] == EncodeU32(vs[k])[i % 4];
    }
  }

  lemma HalvesEncode(img: seq<u8>, off: nat, n: nat)
    requires off + 2 * n <= |img|
    ensures EncodeHalves(seq(n, k requires 0 <= k < n => U16At(img, off + 2 * k))) == img[off..off + 2 * n]
  {
    var vs := seq(n, k requires 0 <= k < n => U16At(img, off + 2 * k));
    var e := EncodeHalves(vs);
    forall i | 0 <= i < 2 * n
      ensures e[i] == img[off + i]
    {
      var k := i / 2;
      U16Encode(img, off + 2 * k);
      assert e[i] == EncodeU16(vs[k])[i % 2];
    }
  }

  /** Decoding a program header loses nothing: encoding it gives back its 32 bytes. */
  lemma PhdrEncode(img: seq<u8>, off: nat)
    requires off + PHDR_SIZE <= |img|
    ensures EncodePhdr(DecodePhdr(img, off)) == img[off..off + PHDR_SIZE]
  {
    assert PhdrWords(DecodePhdr(img, off)) == seq(8, k requires 0 <= k < 8 => U32At(img, off + 4 * k));
    WordsEncode(img, off, 8);
  }

  /** An ELF header written at the start of an image is read back unchanged. */
  lemma EhdrDecode(img: seq<u8>, h: Ehdr)
    requires |h.e_ident| == EI_NIDENT
    requires |img| >= EHDR_SIZE && img[..EHDR_SIZE] == EncodeEhdr(h)
    ensures DecodeEhdr(img) == h
  {
    var low := [h.e_type, h.e_machine];
    var words := [h.e_version, h.e_entry, h.e_phoff, h.e_shoff, h.e_flags];
    var high := [h.e_ehsize, h.e_phentsize, h.e_phnum, h.e_shentsize, h.e_shnum, h.e_shstrndx];
    var e := EncodeEhdr(h);
    assert e == h.e_ident + EncodeHalves(low) + EncodeWords(words) + EncodeHalves(high);
    assert img[..EI_NIDENT] == e[..EI_NIDENT] == h.e_ident;
    assert img[E_TYPE..E_VERSION] == e[E_TYPE..E_VERSION] == EncodeHalves(low);
    assert img[E_VERSION..E_EHSIZE] == e[E_VERSION..E_EHSIZE] == EncodeWords(words);
    assert img[E_EHSIZE..EHDR_SIZE] == e[E_EHSIZE..EHDR_SIZE] == EncodeHalves(high);
    HalvesDecode(img, E_TYPE, low, 0);
    HalvesDecode(img, E_TYPE, low, 1);
    WordsDecode(img, E_VERSION, words, 0);
    WordsDecode(img, E_VERSION, words, 1);
    WordsDecode(img, E_VERSION, words, 2);
    WordsDecode(img, E_VERSION, words, 3);
    WordsDecode(img, E_VERSION, words, 4);
    HalvesDecode(img, E_EHSIZE, high, 0);
    HalvesDecode(img, E_EHSIZE, high, 1);
    HalvesDecode(img, E_EHSIZE, high, 2);
    HalvesDecode(img, E_EHSIZE, high, 3);
    HalvesDecode(img, E_EHSIZE, high, 4);
    HalvesDecode(img, E_EHSIZE, high, 5);
  }

  /** Decoding an ELF header loses nothing: encoding it gives back the first 52 bytes. */
  lemma EhdrEncode(img: seq<u8>)
    requires |img| >= EHDR_SIZE
    ensures EncodeEhdr(DecodeEhdr(img)) == img[..EHDR_SIZE]
  {
    var h := DecodeEhdr(img);
    assert [h.e_type, h.e_machine] == seq(2, k requires 0 <= k < 2 => U16At(img, E_TYPE + 2 * k));
    assert [h.e_version, h.e_entry, h.e_phoff, h.e_shoff, h.e_flags]
        == seq(5, k requires 0 <= k < 5 => U32At(img, E_VERSION + 4 * k));
    assert [h.e_ehsize, h.e_phentsize, h.e_phnum, h.e_shentsize, h.e_shnum, h.e_shstrndx]
        == seq(6, k requires 0 <= k < 6 => U16At(img, E_EHSIZE + 2 * k));
    HalvesEncode(img, E_TYPE, 2);
    WordsEncode(img, E_VERSION, 5);
    HalvesEncode(img, E_EHSIZE, 6);
    assert img[..EHDR_SIZE]
        == img[..EI_NIDENT] + img[E_TYPE..E_VERSION] + img[E_VERSION..E_EHSIZE] + img[E_EHSIZE..EHDR_SIZE];
  }
}
