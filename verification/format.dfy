/** The diagnostic formatters: fixed-width hexadecimal addresses, permission letters,
    segment-type names, and the `readelf`-style line printed for a segment.

    Each formatter builds a NUL-terminated buffer that is then written up to its first NUL.
    Strings here are that written part, with `CString` as the link for the one buffer
    whose construction is modelled step by step.
 */
module Format {
  import opened Bits
  import opened Wrappers
  import opened Elf

  const NUL: char := '\0'

  /** The part of a buffer that is written: everything before the first NUL. */
  function CString(buf: seq<char>): (r: seq<char>)
    ensures NUL !in r
    ensures r <= buf
    ensures |r| < |buf| ==> buf[|r|] == NUL
  {
    if |buf| == 0 || buf[0] == NUL then [] else [buf[0]] + CString(buf[1..])
  }

  // ---------------------------------------------------------------------------
  // Hexadecimal

  const HEX_DIGITS: string := "0123456789abcdef"

  /** One digit as the formatter writes it: '0' + d below ten, 'a' + d - 10 above. */
  function HexChar(d: nat): (c: char)
    requires d < 16
  {
    if d < 10 then ('0' as int + d) as char else ('a' as int + d - 10) as char
  }

  /** The written digits are those of the table `HEX_DIGITS`, in order. */
  lemma HexCharTable(d: nat)
    requires d < 16
    ensures HexChar(d) == HEX_DIGITS[d]
  {
  }

  /** The value of a lower-case hexadecimal digit. */
  function DigitValue(c: char): (r: Option<nat>)
    ensures r.Some? ==> r.value < 16 && HexChar(r.value) == c
  {
    if '0' <= c <= '9' then Some(c as int - '0' as int)
    else if 'a' <= c <= 'f' then Some(c as int - 'a' as int + 10)
    else None
  }

  /** `DigitValue` inverts `HexChar`. */
  lemma DigitValueOfHexChar(d: nat)
    requires d < 16
    ensures DigitValue(HexChar(d)) == Some(d)
  {
  }

  /** Exactly the sixteen digit characters have a value. */
  lemma DigitValueDomain(c: char)
    ensures DigitValue(c).Some? <==> c in HEX_DIGITS
  {
    if DigitValue(c).Some? {
      HexCharTable(DigitValue(c).value);
    }
    if c in HEX_DIGITS {
      var d :| 0 <= d < 16 && HEX_DIGITS[d] == c;
      HexCharTable(d);
      DigitValueOfHexChar(d);
    }
  }

  /** The last `n` hexadecimal digits of `x`, most significant first. */
  function HexDigits(x: nat, n: nat): (r: string)
    ensures |r| == n
  {
    if n == 0 then [] else HexDigits(x / 16, n - 1) + [HexChar(x % 16)]
  }

  /** The value of a string of lower-case hexadecimal digits, most significant first. */
  function ParseDigits(s: string): Option<nat>
  {
    if |s| == 0 then Some(0)
    else
      var high := ParseDigits(s[..|s| - 1]);
      var low := DigitValue(s[|s| - 1]);
      if high.Some? && low.Some? then Some(16 * high.value + low.value) else None
  }

  lemma ParseAppend(s: string, c: char)
    ensures var r := ParseDigits(s + [c]);
      if ParseDigits(s).Some? && DigitValue(c).Some?
      then r == Some(16 * ParseDigits(s).value + DigitValue(c).value)
      else r.None?
  {
    assert (s + [c])[..|s|] == s;
  }

  /** Reading back `n` digits of `x` gives `x` modulo `16^n`. */
  lemma {:induction false} ParseHexDigits(x: nat, n: nat)
    ensures ParseDigits(HexDigits(x, n)) == Some(x % Pow(16, n))
  {
    if n > 0 {
      var init := HexDigits(x / 16, n - 1);
      var high := (x / 16) % Pow(16, n - 1);
      ParseHexDigits(x / 16, n - 1);
      DigitSplit(x, n);
      ParseLastDigit(init, high, x % 16, HexDigits(x, n), x % Pow(16, n));
    } else {
      assert x % 1 == 0;
    }
  }

  /** The last of `n` digits is `x`'s lowest, after the `n - 1` digits of `x / 16`. */
  lemma DigitSplit(x: nat, n: nat)
    requires n > 0
    ensures HexDigits(x, n) == HexDigits(x / 16, n - 1) + [HexChar(x % 16)]
    ensures x % Pow(16, n) == 16 * ((x / 16) % Pow(16, n - 1)) + x % 16
  {
    assert Pow(16, n) == 16 * Pow(16, n - 1);
    ModSplit(x, 16, Pow(16, n - 1));
  }

  /** Appending digit `d` to digits worth `high` gives digits worth `16 * high + d`. */
  lemma ParseLastDigit(s: string, high: nat, d: nat, t: string, v: nat)
    requires d < 16 && ParseDigits(s) == Some(high)
    requires t == s + [HexChar(d)] && v == 16 * high + d
    ensures ParseDigits(t) == Some(v)
  {
    DigitValueOfHexChar(d);
    ParseAppend(s, HexChar(d));
  }

  /** Digits that parse print back as themselves: the representation is unique. */
  lemma {:induction false} HexDigitsOfParse(s: string)
    requires ParseDigits(s).Some?
    ensures HexDigits(ParseDigits(s).value, |s|) == s
  {
    if |s| > 0 {
      var init := s[..|s| - 1];
      LastDigitOfParse(s);
      HexDigitsOfParse(init);
      InitAndLast(s);
    } else {
      assert s == [];
    }
  }

  lemma InitAndLast<T>(s: seq<T>)
    requires |s| > 0
    ensures s[..|s| - 1] + [s[|s| - 1]] == s
  {
  }

  /** Printing the value of `s` ends in the last digit of `s`, after the printed value of
      the digits before it. */
  lemma LastDigitOfParse(s: string)
    requires |s| > 0 && ParseDigits(s).Some?
    ensures ParseDigits(s[..|s| - 1]).Some?
    ensures HexDigits(ParseDigits(s).value, |s|)
         == HexDigits(ParseDigits(s[..|s| - 1]).value, |s| - 1) + [s[|s| - 1]]
  {
    var high := ParseDigits(s[..|s| - 1]).value;
    var low := DigitValue(s[|s| - 1]).value;
    HexDigitsStep(ParseDigits(s).value, |s|, high, low);
  }

  /** The last digit of `16 * high + low` is `low`, and the ones before it are `high`'s. */
  lemma HexDigitsStep(x: nat, n: nat, high: nat, low: nat)
    requires n > 0 && low < 16 && x == 16 * high + low
    ensures HexDigits(x, n) == HexDigits(high, n - 1) + [HexChar(low)]
  {
    DivUnique(x, 16, high, low);
  }

  /** `print_address_hex`: "0x", eight lower-case digits most significant first, a space. */
  function AddressHex(addr: u32): (r: string)
    ensures |r| == 11
  {
    "0x" + HexDigits(addr, 8) + " "
  }

  /** The printed field is "0x", eight lower-case digits that read back as the address,
      and a space. */
  lemma AddressHexShape(addr: u32)
    ensures var r := AddressHex(addr);
      && r[..2] == "0x" && r[10] == ' '
      && (forall i :: 2 <= i < 10 ==> r[i] in HEX_DIGITS)
      && ParseDigits(r[2..10]) == Some(addr)
  {
    var digits := HexDigits(addr, 8);
    var r := AddressHex(addr);
    assert r[2..10] == digits;
    ParseHexDigits(addr, 8);
    PowValues();
    DivUnique(addr, WORD_MODULUS, 0, addr);
    HexDigitsAreDigits(addr, 8);
  }

  lemma {:induction false} HexDigitsAreDigits(x: nat, n: nat)
    ensures forall i :: 0 <= i < n ==> HexDigits(x, n)[i] in HEX_DIGITS
  {
    if n > 0 {
      HexDigitsAreDigits(x / 16, n - 1);
    }
  }

  /** The inverse of `AddressHex`: a well-formed field gives back its address. */
  function ParseAddressHex(s: string): Option<u32>
  {
    if |s| != 11 || s[..2] != "0x" || s[10] != ' ' then None
    else
      match ParseDigits(s[2..10])
      case Some(v) => if v < WORD_MODULUS then Some(v) else None
      case None => None
  }

  /** Parsing a printed address gives the address back. */
  lemma ParseAddressHexOfFormat(addr: u32)
    ensures ParseAddressHex(AddressHex(addr)) == Some(addr)
  {
    AddressHexShape(addr);
  }

  /** Printing a parsed field gives the field back: the format is a bijection between
      32-bit values and well-formed fields. */
  lemma FormatOfParseAddressHex(s: string)
    requires ParseAddressHex(s).Some?
    ensures AddressHex(ParseAddressHex(s).value) == s
  {
    var digits := s[2..10];
    HexDigitsOfParse(digits);
    assert s == "0x" + digits + " ";
  }

  /** The formatter's loop: digits are written from buffer index 9 down to 2, each the low
      nibble `addr & 0xF` of the remaining value, which then shifts right by four bits. */
  method FormatAddressHex(addr: u32) returns (buf: seq<char>)
    ensures |buf| == 12 && buf[11] == NUL
    ensures buf[..11] == AddressHex(addr)
    ensures CString(buf) == AddressHex(addr)
  {
    buf := seq(12, _ => NUL);
    buf := buf[0 := '0'][1 := 'x'];
    var a: u32 := addr;
    var i := 9;
    while i >= 2
      invariant 1 <= i <= 9
      invariant |buf| == 12 && buf[0] == '0' && buf[1] == 'x' && buf[11] == NUL
      invariant HexDigits(a, i - 1) + buf[i + 1..10] == HexDigits(addr, 8)
    {
      var digit := LowNibble(a);
      ghost var rest := buf[i + 1..10];
      buf := buf[i := HexChar(digit)];
      assert buf[i..10] == [HexChar(digit)] + rest;
      assert HexDigits(a, i - 1) == HexDigits(a / 16, i - 2) + [HexChar(digit)];
      a := a / 16;
      i := i - 1;
    }
    assert buf[2..10] == HexDigits(addr, 8);
    buf := buf[10 := ' '];
    buf := buf[11 := NUL];
    TerminatedAddress(addr, buf);
  }

  lemma TerminatedAddress(addr: u32, buf: seq<char>)
    requires |buf| == 12 && buf[0] == '0' && buf[1] == 'x' && buf[10] == ' ' && buf[11] == NUL
    requires buf[2..10] == HexDigits(addr, 8)
    ensures buf[..11] == AddressHex(addr)
    ensures CString(buf) == AddressHex(addr)
  {
    var digits := buf[2..10];
    assert buf[..11] == "0x" + digits + " ";
    HexDigitsAreDigits(addr, 8);
    DigitsHaveNoNul(digits);
    CStringOfTerminated(buf, 11);
  }

  lemma DigitsHaveNoNul(s: string)
    requires forall i :: 0 <= i < |s| ==> s[i] in HEX_DIGITS
    ensures NUL !in s
  {
    assert NUL !in HEX_DIGITS;
    assert forall i :: 0 <= i < |s| ==> s[i] != NUL;
  }

  lemma {:induction false} CStringOfTerminated(buf: seq<char>, n: nat)
    requires n < |buf| && buf[n] == NUL && NUL !in buf[..n]
    ensures CString(buf) == buf[..n]
  {
    if n > 0 {
      assert buf[0] in buf[..n];
      assert buf[1..][..n - 1] == buf[1..n];
      assert forall c :: c in buf[1..n] ==> c in buf[..n];
      CStringOfTerminated(buf[1..], n - 1);
    }
  }

  // ---------------------------------------------------------------------------
  // Permission letters

  /** `a` is obtained from `b` by deleting characters. */
  predicate IsSubsequence(a: string, b: string)
  {
    if |a| == 0 then true
    else if |b| == 0 then false
    else if a[0] == b[0] then IsSubsequence(a[1..], b[1..])
    else IsSubsequence(a, b[1..])
  }

  lemma LettersInOrder(r: bool, w: bool, e: bool)
    ensures IsSubsequence((if r then "R" else "") + (if w then "W" else "") + (if e then "E" else ""), "RWE")
  {
    var t := (if r then "R" else "") + (if w then "W" else "") + (if e then "E" else "");
    if r && w && e {
      assert t == "RWE";
      assert IsSubsequence("E", "E");
      assert IsSubsequence("WE", "WE");
    } else if r && w {
      assert t == "RW";
      assert IsSubsequence("", "E");
      assert IsSubsequence("W", "WE");
    } else if r && e {
      assert t == "RE";
      assert IsSubsequence("E", "E");
      assert IsSubsequence("E", "WE");
    } else if r {
      assert t == "R";
      assert IsSubsequence("", "WE");
    } else if w && e {
      assert t == "WE";
      assert IsSubsequence("E", "E");
      assert IsSubsequence("WE", "WE");
    } else if w {
      assert t == "W";
      assert IsSubsequence("", "E");
      assert IsSubsequence("W", "WE");
    } else if e {
      assert t == "E";
      assert IsSubsequence("E", "E");
      assert IsSubsequence("E", "WE");
    } else {
      assert t == "";
    }
  }

  const PF_X: nat := 1
  const PF_W: nat := 2
  const PF_R: nat := 4

  /** `flags_to_str`: 'R', 'W' and 'E' for the bits 4, 2 and 1, in that order. The result
      and its terminator fit the caller's four-byte buffer. */
  function FlagsStr(flags: u32): (r: string)
    ensures |r| <= 3 && |r| + 1 <= 4
    ensures IsSubsequence(r, "RWE")
    ensures 'R' in r <==> (flags / 4) % 2 == 1
    ensures 'W' in r <==> (flags / 2) % 2 == 1
    ensures 'E' in r <==> flags % 2 == 1
  {
    FlagSetMeaning(flags, PF_R);
    FlagSetMeaning(flags, PF_W);
    FlagSetMeaning(flags, PF_X);
    LettersInOrder(FlagSet(flags, PF_R), FlagSet(flags, PF_W), FlagSet(flags, PF_X));
    (if FlagSet(flags, PF_R) then "R" else "")
    + (if FlagSet(flags, PF_W) then "W" else "")
    + (if FlagSet(flags, PF_X) then "E" else "")
  }

  // ---------------------------------------------------------------------------
  // Segment types

  /** The segment types the formatter names; every other value is `Unknown`. */
  datatype SegmentType =
    | Null | Load | Dynamic | Interp | Note | Shlib | ProgramHeader | Tls
    | LoProc | HiProc | Unknown

  /** The `p_type` value of each named type (ELF specification, Book I, "Program Header"). */
  function TypeCode(k: SegmentType): (t: u32)
    requires k != Unknown
  {
    match k
    case Null => 0
    case Load => 1
    case Dynamic => 2
    case Interp => 3
    case Note => 4
    case Shlib => 5
    case ProgramHeader => 6
    case Tls => 7
    case LoProc => 0x7000_0000
    case HiProc => 0x7fff_ffff
  }

  function Classify(t: u32): (k: SegmentType)
    ensures k != Unknown ==> TypeCode(k) == t
  {
    if t == 0 then Null
    else if t == 1 then Load
    else if t == 2 then Dynamic
    else if t == 3 then Interp
    else if t == 4 then Note
    else if t == 5 then Shlib
    else if t == 6 then ProgramHeader
    else if t == 7 then Tls
    else if t == 0x7000_0000 then LoProc
    else if t == 0x7fff_ffff then HiProc
    else Unknown
  }

  /** Every named type is recognised from its code. */
  lemma ClassifyTypeCode(k: SegmentType)
    requires k != Unknown
    ensures Classify(TypeCode(k)) == k
  {
  }

  function TypeLabel(k: SegmentType): string
  {
    match k
    case Null => "NULL"
    case Load => "LOAD"
    case Dynamic => "DYNAMIC"
    case Interp => "INTERP"
    case Note => "NOTE"
    case Shlib => "SHLIB"
    case ProgramHeader => "PHDR"
    case Tls => "TLS"
    case LoProc => "LOPROC"
    case HiProc => "HIPROC"
    case Unknown => "UNKNOWN"
  }

  /** `phdr_type_to_str`. */
  function TypeName(t: u32): (r: string)
    ensures r == "UNKNOWN" <==> Classify(t) == Unknown
    ensures r == "LOAD" <==> t == PT_LOAD
  {
    TypeLabel(Classify(t))
  }

  /** The table of names: the eight standard types 0 to 7, the processor-specific bounds,
      and "UNKNOWN" for every other value. */
  lemma TypeNameTable(t: u32)
    ensures TypeName(0) == "NULL" && TypeName(1) == "LOAD" && TypeName(2) == "DYNAMIC"
    ensures TypeName(3) == "INTERP" && TypeName(4) == "NOTE" && TypeName(5) == "SHLIB"
    ensures TypeName(6) == "PHDR" && TypeName(7) == "TLS"
    ensures TypeName(0x7000_0000) == "LOPROC" && TypeName(0x7fff_ffff) == "HIPROC"
    ensures TypeName(t) == "UNKNOWN" <==> 7 < t && t != 0x7000_0000 && t != 0x7fff_ffff
  {
  }

  /** Distinct named types have distinct names, so a name other than "UNKNOWN" determines
      the type. */
  lemma TypeNameDetermines(t: u32, u: u32)
    requires TypeName(t) == TypeName(u) != "UNKNOWN"
    ensures t == u
  {
    assert TypeCode(Classify(t)) == t && TypeCode(Classify(u)) == u;
  }

  // ---------------------------------------------------------------------------
  // The segment line

  /** Consecutive hexadecimal fields. */
  function HexFields(vs: seq<u32>): (r: string)
    ensures |r| == 11 * |vs|
  {
    if |vs| == 0 then [] else HexFields(vs[..|vs| - 1]) + AddressHex(vs[|vs| - 1])
  }

  lemma {:induction false} HexFieldAt(vs: seq<u32>, k: nat)
    requires k < |vs|
    ensures HexFields(vs)[11 * k..11 * k + 11] == AddressHex(vs[k])
  {
    var init := vs[..|vs| - 1];
    if k < |vs| - 1 {
      HexFieldAt(init, k);
      assert HexFields(vs)[11 * k..11 * k + 11] == HexFields(init)[11 * k..11 * k + 11];
    }
  }

  lemma Middle(a: string, b: string, c: string)
    ensures (a + b + c)[|a|..|a| + |b|] == b
  {
  }

  /** The permission letters, a space and the alignment field that end a segment line. */
  function LineTail(p: Phdr): (r: string)
    ensures |r| == |FlagsStr(p.p_flags)| + 13
  {
    FlagsStr(p.p_flags) + " " + AddressHex(p.p_align) + "\n"
  }

  /** `print_phdr_readelf`: type name, a space, offset, virtual and physical address, file
      and memory size as hexadecimal fields, then the permission letters, a space, the
      alignment field and a newline. */
  function ReadelfLine(p: Phdr): (r: string)
    ensures |r| == |TypeName(p.p_type)| + |FlagsStr(p.p_flags)| + 69
    ensures r[..|TypeName(p.p_type)|] == TypeName(p.p_type)
    ensures r[|TypeName(p.p_type)|] == ' '
    ensures r[|r| - 1] == '\n'
  {
    var r := (TypeName(p.p_type) + " ")
      + HexFields([p.p_offset, p.p_vaddr, p.p_paddr, p.p_filesz, p.p_memsz])
      + LineTail(p);
    assert r[|r| - 1] == LineTail(p)[|LineTail(p)| - 1];
    r
  }

  /** Field `k` of the five numeric fields reads back as the header field it shows. */
  lemma ReadelfLineField(p: Phdr, k: nat)
    requires k < 5
    ensures var r := ReadelfLine(p);
      var at := |TypeName(p.p_type)| + 1 + 11 * k;
      ParseAddressHex(r[at..at + 11]) == Some([p.p_offset, p.p_vaddr, p.p_paddr, p.p_filesz, p.p_memsz][k])
  {
    var vs := [p.p_offset, p.p_vaddr, p.p_paddr, p.p_filesz, p.p_memsz];
    var head := TypeName(p.p_type) + " ";
    var at := |head| + 11 * k;
    assert ReadelfLine(p) == head + HexFields(vs) + LineTail(p);
    SliceInMiddle(ReadelfLine(p), head, HexFields(vs), LineTail(p), 11 * k, 11 * k + 11);
    HexFieldAt(vs, k);
    FieldParses(ReadelfLine(p)[at..at + 11], vs[k]);
  }

  /** A slice of the middle part of `head + mid + tail`, taken from the whole. */
  lemma SliceInMiddle<T>(r: seq<T>, head: seq<T>, mid: seq<T>, tail: seq<T>, i: nat, j: nat)
    requires r == head + mid + tail && i <= j <= |mid|
    ensures r[|head| + i..|head| + j] == mid[i..j]
  {
    forall t | 0 <= t < j - i
      ensures r[|head| + i..|head| + j][t] == mid[i..j][t]
    {
      assert r[|head| + i + t] == mid[i + t];
    }
  }

  lemma FieldParses(s: string, addr: u32)
    requires s == AddressHex(addr)
    ensures ParseAddressHex(s) == Some(addr)
  {
    ParseAddressHexOfFormat(addr);
  }

  /** A slice of a slice is a slice of the whole, between `from` and `to`. */
  lemma SliceOfSlice<T>(s: seq<T>, lo: nat, hi: nat, i: nat, j: nat, from: nat, to: nat)
    requires lo <= hi <= |s| && i <= j <= hi - lo
    requires from == lo + i && to == lo + j
    ensures s[lo..hi][i..j] == s[from..to]
  {
    forall t | 0 <= t < j - i
      ensures s[lo..hi][i..j][t] == s[from..to][t]
    {
      assert s[lo..hi][i..j][t] == s[lo..hi][i + t] == s[lo + i + t];
    }
  }

  /** The line ends with the permission letters, a space and the alignment field, which
      reads back as `p_align`. */
  lemma ReadelfLineTail(p: Phdr)
    ensures ShowsTail(ReadelfLine(p), |TypeName(p.p_type)| + 56, FlagsStr(p.p_flags), p.p_align)
  {
    var front := TypeName(p.p_type) + " " + HexFields([p.p_offset, p.p_vaddr, p.p_paddr, p.p_filesz, p.p_memsz]);
    assert ReadelfLine(p) == front + LineTail(p);
    Suffix(front, LineTail(p));
    TailSlices(ReadelfLine(p), |TypeName(p.p_type)| + 56, FlagsStr(p.p_flags), p.p_align);
  }

  /** From `at`, `r` shows the permission letters `flags`, then a space and a field that
      reads back as `align`. */
  predicate ShowsTail(r: string, at: nat, flags: string, align: u32)
  {
    && at + |flags| + 12 <= |r|
    && r[at..at + |flags|] == flags
    && r[at + |flags|] == ' '
    && ParseAddressHex(r[at + |flags| + 1..at + |flags| + 12]) == Some(align)
  }

  /** The slices of a string ending in letters, a space, an address field and a newline. */
  lemma TailSlices(r: string, at: nat, flags: string, align: u32)
    requires at <= |r| && r[at..] == flags + " " + AddressHex(align) + "\n"
    ensures ShowsTail(r, at, flags, align)
  {
    var f := |flags|;
    TailParts(flags, AddressHex(align));
    SliceOfSlice(r, at, |r|, 0, f, at, at + f);
    assert r[at + f] == r[at..][f];
    SliceOfSlice(r, at, |r|, f + 1, f + 12, at + f + 1, at + f + 12);
    FieldParses(r[at + f + 1..at + f + 12], align);
  }

  lemma Suffix<T>(a: seq<T>, b: seq<T>)
    ensures (a + b)[|a|..] == b
  {
  }

  lemma TailParts(flags: string, align: string)
    requires |align| == 11
    ensures var t := flags + " " + align + "\n";
      t[..|flags|] == flags && t[|flags|] == ' ' && t[|flags| + 1..|flags| + 12] == align
  {
  }
}
