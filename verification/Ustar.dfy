/**
 A writer for the "ustar Interchange Format" of the `pax` utility (IEEE Std 1003.1), and what
 the kernel's reader makes of the archives it writes.
 */
module Ustar {
  import opened Rust
  import opened Sequences
  import opened Arithmetic
  import opened Utf8
  import opened Numerals
  import opened Calendar
  import opened Initrd

  /** One archive member. Numbers are numbers here, and octal text in the archive. */
  datatype Entry = Entry(
    name: string, mode: nat, userId: nat, groupId: nat, mtime: nat, checksum: string, flag: nat,
    linked: string, indicator: string, version: string, username: string, group: string,
    major: nat, minor: nat, prefix: string, data: seq<u8>)

  predicate Fits(text: string, width: nat) {
    |EncodeString(text)| <= width && (text != "" ==> text[|text| - 1] != '\0')
  }

  /** What the format can hold: text within its fields, seven-digit octal numbers, and, since
      the reader keeps sizes and times in 32 bits, both below 2^32. */
  predicate WellFormed(e: Entry) {
    && Fits(e.name, 100) && Fits(e.checksum, 8) && Fits(e.linked, 100) && Fits(e.indicator, 6)
    && Fits(e.version, 2) && Fits(e.username, 32) && Fits(e.group, 32) && Fits(e.prefix, 155)
    && e.mode < Pow(8, 7) && e.userId < Pow(8, 7) && e.groupId < Pow(8, 7)
    && e.major < Pow(8, 7) && e.minor < Pow(8, 7) && e.flag < 10
    && e.mtime < TWO_POW_32 && |e.data| < TWO_POW_32
  }

  predicate AllWellFormed(entries: seq<Entry>) {
    forall i :: 0 <= i < |entries| ==> WellFormed(entries[i])
  }

  // ------------------------------------------------------------------- writing

  /** The text of each header field, in order. */
  function Texts(e: Entry): (texts: seq<string>)
    requires e.flag < 10
    ensures |texts| == 16
  {
    [e.name, Octal(e.mode, 7), Octal(e.userId, 7), Octal(e.groupId, 7), Octal(|e.data|, 11), Octal(e.mtime, 11),
     e.checksum, [DigitChar(e.flag)], e.linked, e.indicator, e.version, e.username, e.group,
     Octal(e.major, 7), Octal(e.minor, 7), e.prefix]
  }

  /** Where each field starts; the last number is where the padding starts. */
  function Offset(k: nat): nat
    requires k <= 16
  {
    [0, 100, 108, 116, 124, 136, 148, 156, 157, 257, 263, 265, 297, 329, 337, 345, 500][k]
  }

  function Width(k: nat): nat
    requires k < 16
  {
    Offset(k + 1) - Offset(k)
  }

  function Field(text: string, width: nat): (bytes: seq<u8>)
    requires Fits(text, width)
    ensures |bytes| == width
  {
    EncodeString(text) + Zeros(width - |EncodeString(text)|)
  }

  predicate AllFit(texts: seq<string>) {
    |texts| == 16 && forall k :: 0 <= k < 16 ==> Fits(texts[k], Width(k))
  }

  /** The first fields of a header. */
  function Fields(texts: seq<string>, n: nat): (bytes: seq<u8>)
    requires AllFit(texts) && n <= 16
    ensures |bytes| == Offset(n)
  {
    if n == 0 then [] else Fields(texts, n - 1) + Field(texts[n - 1], Width(n - 1))
  }

  function HeaderBlock(e: Entry): (block: seq<u8>)
    requires WellFormed(e)
    ensures |block| == BLOCK_SIZE
  {
    EntryFits(e);
    Fields(Texts(e), 16) + Zeros(12)
  }

  function Padding(size: nat): nat {
    (BLOCK_SIZE - size % BLOCK_SIZE) % BLOCK_SIZE
  }

  function Member(e: Entry): seq<u8>
    requires WellFormed(e)
  {
    HeaderBlock(e) + (e.data + Zeros(Padding(|e.data|)))
  }

  function Archive(entries: seq<Entry>): seq<u8>
    requires AllWellFormed(entries)
  {
    if entries == [] then [] else Member(entries[0]) + Archive(entries[1..])
  }

  // -------------------------------------------------------- what the reader keeps

  /** Every field as it was written, except that the mode and the device numbers, octal in the
      archive, are kept as the numbers their digits denote in decimal. */
  function FileOf(e: Entry): File
    requires WellFormed(e)
  {
    MisreadSmall(e.mode);
    MisreadSmall(e.major);
    MisreadSmall(e.minor);
    SevenDigitsSmall(e.userId);
    SevenDigitsSmall(e.groupId);
    File(Header(e.name, Misread(e.mode), e.userId, e.groupId, |e.data|, e.mtime, e.checksum, e.flag, e.linked,
                e.indicator, e.version, e.username, e.group, Misread(e.major), Misread(e.minor), e.prefix), e.data)
  }

  function FilesOf(entries: seq<Entry>): seq<File>
    requires AllWellFormed(entries)
  {
    if entries == [] then [] else [FileOf(entries[0])] + FilesOf(entries[1..])
  }

  lemma SevenDigits()
    ensures Pow(8, 7) == 2097152 && Pow(10, 7) == 10000000 && Pow(8, 11) == 8589934592
  {
    assert Pow(8, 3) == 512;
    assert Pow(8, 4) == 4096;
    assert Pow(8, 7) == 2097152;
    assert Pow(8, 11) == 8589934592;
    assert Pow(10, 3) == 1000;
    assert Pow(10, 7) == 10000000;
  }

  lemma SevenDigitsSmall(n: nat)
    requires n < Pow(8, 7)
    ensures n < TWO_POW_32
  {
    SevenDigits();
  }

  lemma MisreadSmall(n: nat)
    requires n < Pow(8, 7)
    ensures Misread(n) < TWO_POW_32
  {
    SevenDigits();
    MisreadBound(n, 7);
  }

  // ------------------------------------------------------------------- one field

  lemma OctalFits(n: nat, width: nat)
    ensures Fits(Octal(n, width), width + 1)
  {
    EncodeAscii(Octal(n, width));
    if width > 0 {
      assert IsDigit(Octal(n, width)[width - 1], 8);
    }
  }

  lemma DigitFits(d: nat)
    requires d < 10
    ensures Fits([DigitChar(d)], 1)
  {
    EncodeAscii([DigitChar(d)]);
  }

  lemma EntryFits(e: Entry)
    requires WellFormed(e)
    ensures AllFit(Texts(e))
  {
    hide Fits, Octal, Pow;
    OctalFits(e.mode, 7);
    OctalFits(e.userId, 7);
    OctalFits(e.groupId, 7);
    OctalFits(|e.data|, 11);
    OctalFits(e.mtime, 11);
    OctalFits(e.major, 7);
    OctalFits(e.minor, 7);
    DigitFits(e.flag);
  }

  function Nuls(n: nat): string {
    if n == 0 then "" else Nuls(n - 1) + ['\0']
  }

  lemma {:induction false} EncodeNuls(n: nat)
    ensures EncodeString(Nuls(n)) == Zeros(n)
  {
    if n == 0 {
    } else {
      EncodeNuls(n - 1);
      EncodeConcat(Nuls(n - 1), ['\0']);
      assert EncodeString(['\0']) == [0];
    }
  }

  lemma {:induction false} TrimNuls(text: string, n: nat)
    requires text != "" ==> text[|text| - 1] != '\0'
    ensures TrimNul(text + Nuls(n)) == text
  {
    if n == 0 {
      assert text + Nuls(0) == text;
    } else {
      var s := text + Nuls(n);
      assert s[..|s| - 1] == text + Nuls(n - 1);
      TrimNuls(text, n - 1);
    }
  }

  /** A text that ends in no NUL of its own comes back from its padded field. */
  lemma FieldReads(text: string, width: nat)
    requires Fits(text, width)
    ensures FromUtf8(Field(text, width)).Some?
    ensures TrimNul(FromUtf8(Field(text, width)).value) == text
  {
    var n := width - |EncodeString(text)|;
    EncodeNuls(n);
    EncodeConcat(text, Nuls(n));
    DecodeEncode(text + Nuls(n));
    TrimNuls(text, n);
  }

  /** A field that holds any text at all, where the reader expects an octal number: it reads as the
      number that the text spells, and panics if it spells none below 2^32. */
  lemma OctalField(block: seq<u8>, offset: nat, width: nat, text: string)
    requires offset + width <= |block| && Fits(text, width) && block[offset..offset + width] == Field(text, width)
    ensures forall n: u32 :: ParseOctal(block, offset, width) == Returns(n) <==> Spells(text, 8, n)
    ensures ParseOctal(block, offset, width).Returns? || ParseOctal(block, offset, width) == Panics
  {
    hide FromUtf8, TrimNul, Field, Fits, Spells, FromStrRadix;
    FieldReads(text, width);
    forall n: u32
      ensures FromStrRadix(text, 8, TWO_POW_32) == Some(n) <==> Spells(text, 8, n)
    {
      ReadIff(text, 8, TWO_POW_32, n);
    }
  }

  /** Where it expects a decimal number, a text that spells none below 2^32 counts as zero. */
  lemma DecimalField(block: seq<u8>, offset: nat, width: nat, text: string)
    requires offset + width <= |block| && Fits(text, width) && block[offset..offset + width] == Field(text, width)
    ensures forall n: u32 :: Spells(text, 10, n) ==> ParseInteger(block, offset, width) == Returns(n)
    ensures (forall n: u32 :: !Spells(text, 10, n)) ==> ParseInteger(block, offset, width) == Returns(0)
  {
    hide FromUtf8, TrimNul, Field, Fits, Spells, FromStrRadix;
    FieldReads(text, width);
    forall n: u32
      ensures FromStrRadix(text, 10, TWO_POW_32) == Some(n) <==> Spells(text, 10, n)
    {
      ReadIff(text, 10, TWO_POW_32, n);
    }
  }

  lemma {:induction false} OffsetsRise(k: nat, n: nat)
    requires k <= n <= 16
    ensures Offset(k) <= Offset(n)
    decreases n - k
  {
    if k >= n {
    } else {
      OffsetsRise(k, n - 1);
    }
  }

  lemma SliceOfPrefix<T>(p: seq<T>, q: seq<T>, i: nat, j: nat)
    requires i <= j <= |p|
    ensures (p + q)[i..j] == p[i..j]
  {
  }

  lemma SliceAfterPrefix<T>(p: seq<T>, q: seq<T>, j: nat)
    requires j == |p| + |q|
    ensures (p + q)[|p|..j] == q
  {
  }

  lemma {:induction false} FieldAt(texts: seq<string>, n: nat, k: nat)
    requires AllFit(texts) && k < n <= 16
    ensures Offset(k) <= Offset(k + 1) <= Offset(n)
    ensures Fields(texts, n)[Offset(k)..Offset(k + 1)] == Field(texts[k], Width(k))
  {
    hide Offset, Field, Fits;
    OffsetsRise(k, k + 1);
    OffsetsRise(k + 1, n);
    var before, last := Fields(texts, n - 1), Field(texts[n - 1], Width(n - 1));
    if k < n - 1 {
      OffsetsRise(k + 1, n - 1);
      FieldAt(texts, n - 1, k);
      SliceOfPrefix(before, last, Offset(k), Offset(k + 1));
    } else {
      SliceAfterPrefix(before, last, Offset(n));
    }
  }

  lemma BlockReads(e: Entry, k: nat)
    requires WellFormed(e) && k < 16
    ensures Offset(k) + Width(k) <= BLOCK_SIZE
    ensures ParseSlice(HeaderBlock(e), Offset(k), Width(k)) == Returns(Texts(e)[k])
  {
    assert Offset(16) == 500;
    hide Offset, Field, Fits, Fields, FromUtf8, TrimNul;
    EntryFits(e);
    FieldAt(Texts(e), 16, k);
    FieldReads(Texts(e)[k], Width(k));
    SliceOfPrefix(Fields(Texts(e), 16), Zeros(12), Offset(k), Offset(k + 1));
  }

  // ------------------------------------------------------------------- one header

  lemma OctalReads(e: Entry, k: nat, n: nat)
    requires WellFormed(e) && k in {2, 3, 4, 5} && n < TWO_POW_32 && n < Pow(8, Width(k) - 1)
    requires Texts(e)[k] == Octal(n, Width(k) - 1)
    ensures ParseOctal(HeaderBlock(e), Offset(k), Width(k)) == Returns(n)
  {
    hide HeaderBlock, ParseSlice, Octal, Pow, FromStrRadix, Fits;
    BlockReads(e, k);
    OctalRoundTrip(n, Width(k) - 1, TWO_POW_32);
  }

  lemma MisreadRoundTrip(n: nat)
    requires n < Pow(8, 7)
    ensures Misread(n) < TWO_POW_32
    ensures FromStrRadix(Octal(n, 7), 10, TWO_POW_32) == Some(Misread(n))
  {
    MisreadSmall(n);
    MisreadOctal(n, 7);
    assert IsDigit(Octal(n, 7)[0], 8);
  }

  lemma MisreadReads(e: Entry, k: nat, n: nat)
    requires WellFormed(e) && k in {1, 13, 14} && n < Pow(8, 7)
    requires Texts(e)[k] == Octal(n, 7)
    ensures ParseInteger(HeaderBlock(e), Offset(k), 8) == Returns(Misread(n))
  {
    hide HeaderBlock, ParseSlice, Octal, Pow, FromStrRadix, Fits;
    BlockReads(e, k);
    MisreadRoundTrip(n);
  }

  lemma DigitRoundTrip(d: nat)
    requires d < 10
    ensures FromStrRadix([DigitChar(d)], 10, TWO_POW_32) == Some(d)
  {
    DecimalRoundTrip(d, TWO_POW_32);
  }

  lemma FlagReads(e: Entry)
    requires WellFormed(e)
    ensures ParseInteger(HeaderBlock(e), 156, 1) == Returns(e.flag)
  {
    hide HeaderBlock, ParseSlice, Octal, Pow, FromStrRadix, Fits;
    BlockReads(e, 7);
    DigitRoundTrip(e.flag);
  }

  lemma OctalsRead(e: Entry)
    requires WellFormed(e)
    ensures var block := HeaderBlock(e);
            && ParseOctal(block, 108, 8) == Returns(e.userId)
            && ParseOctal(block, 116, 8) == Returns(e.groupId)
            && ParseOctal(block, 124, 12) == Returns(|e.data|)
            && ParseOctal(block, 136, 12) == Returns(e.mtime)
  {
    hide HeaderBlock, ParseOctal, Pow, Octal, Fits;
    SevenDigits();
    OctalReads(e, 2, e.userId);
    OctalReads(e, 3, e.groupId);
    OctalReads(e, 4, |e.data|);
    OctalReads(e, 5, e.mtime);
  }

  lemma MisreadsRead(e: Entry)
    requires WellFormed(e)
    ensures var block := HeaderBlock(e);
            && ParseInteger(block, 100, 8) == Returns(Misread(e.mode))
            && ParseInteger(block, 329, 8) == Returns(Misread(e.major))
            && ParseInteger(block, 337, 8) == Returns(Misread(e.minor))
  {
    hide HeaderBlock, ParseInteger, Misread, Pow, Octal, Fits;
    MisreadReads(e, 1, e.mode);
    MisreadReads(e, 13, e.major);
    MisreadReads(e, 14, e.minor);
  }

  lemma TextsRead(e: Entry)
    requires WellFormed(e)
    ensures var block := HeaderBlock(e);
            && ParseSlice(block, 0, 100) == Returns(e.name)
            && ParseSlice(block, 148, 8) == Returns(e.checksum)
            && ParseSlice(block, 157, 100) == Returns(e.linked)
            && ParseSlice(block, 257, 6) == Returns(e.indicator)
            && ParseSlice(block, 263, 2) == Returns(e.version)
            && ParseSlice(block, 265, 32) == Returns(e.username)
            && ParseSlice(block, 297, 32) == Returns(e.group)
            && ParseSlice(block, 345, 155) == Returns(e.prefix)
  {
    hide HeaderBlock, ParseSlice;
    BlockReads(e, 0);
    BlockReads(e, 6);
    BlockReads(e, 8);
    BlockReads(e, 9);
    BlockReads(e, 10);
    BlockReads(e, 11);
    BlockReads(e, 12);
    BlockReads(e, 15);
  }

  /** A header block reads back as the header it was written for. */
  lemma HeaderRoundTrip(e: Entry)
    requires WellFormed(e)
    ensures ParseHeader(HeaderBlock(e)) == Returns(FileOf(e).header)
  {
    hide HeaderBlock, ParseSlice, ParseOctal, ParseInteger, Misread, Pow;
    TextsRead(e);
    OctalsRead(e);
    MisreadsRead(e);
    FlagReads(e);
  }

  /** The mode field holds digits, so no header is a zero block. */
  lemma HeaderNotZero(e: Entry)
    requires WellFormed(e)
    ensures HeaderBlock(e) != Zeros(BLOCK_SIZE)
  {
    hide HeaderBlock, ParseSlice, Octal, Pow, Fits, Zeros;
    BlockReads(e, 1);
    if HeaderBlock(e) == Zeros(BLOCK_SIZE) {
      EmptyFieldReads(HeaderBlock(e));
    }
  }

  lemma EmptyFieldReads(block: seq<u8>)
    requires block == Zeros(BLOCK_SIZE)
    ensures ParseSlice(block, 100, 8) == Returns("")
  {
    assert EncodeString("") == [];
    FieldReads("", 8);
    assert block[100..108] == Field("", 8);
  }

  // ----------------------------------------------------------------- the archive

  /** Data and padding fill exactly the blocks that the walk skips. */
  lemma PaddingFills(size: nat)
    ensures size + Padding(size) == BLOCK_SIZE * DivCeil(size, BLOCK_SIZE)
  {
    var q, r := size / 512, size % 512;
    if r == 0 {
      DivModUnique(size + 511, q, 511, 512);
      DivModUnique(512, 1, 0, 512);
    } else {
      DivModUnique(size + 511, q + 1, r - 1, 512);
      DivModUnique(512 - r, 0, 512 - r, 512);
    }
  }

  lemma MemberLength(e: Entry)
    requires WellFormed(e)
    ensures |Member(e)| == NextAddress(0, |e.data|)
  {
    PaddingFills(|e.data|);
  }

  /** The entries whose modes and times the listing survives: a mode of at least 0100 (three
      octal digits) and a time the date loops get right. */
  predicate EntryListable(e: Entry) {
    e.mode >= 64 && Datable(e.mtime)
  }

  predicate AllListable(entries: seq<Entry>) {
    forall i :: 0 <= i < |entries| ==> EntryListable(entries[i])
  }

  lemma DecimalLength(n: nat)
    ensures |Decimal(n)| >= 3 <==> n >= 100
  {
    assert |Decimal(n)| >= 2 <==> n >= 10;
    if n >= 10 {
      assert |Decimal(n / 10)| >= 2 <==> n / 10 >= 10;
    }
  }

  lemma ListableEntry(e: Entry)
    requires WellFormed(e)
    ensures var h := FileOf(e).header; Listable(h.mode, h.mtime) <==> EntryListable(e)
  {
    hide Misread, Datable, Decimal, Pow, Fits;
    MisreadHundred(e.mode);
    DecimalLength(Misread(e.mode));
  }

  lemma MemberSlices(before: seq<u8>, e: Entry, behind: seq<u8>)
    requires WellFormed(e)
    ensures var archive, start := before + (Member(e) + behind), |before| + BLOCK_SIZE;
            && start + |e.data| <= |archive|
            && archive[|before|..start] == HeaderBlock(e)
            && archive[start..start + |e.data|] == e.data
  {
    hide HeaderBlock, WellFormed;
  }

  lemma ReadsFile(archive: seq<u8>, address: nat, file: File)
    requires address + BLOCK_SIZE + file.header.size <= |archive|
    requires ParseHeader(archive[address..address + BLOCK_SIZE]) == Returns(file.header)
    requires archive[address + BLOCK_SIZE..address + BLOCK_SIZE + file.header.size] == file.data
    ensures ReadFile(archive, address) ==
            if Listable(file.header.mode, file.header.mtime) then Returns(file) else Panics
  {
    hide ParseHeader, Listable, ModeText, Decimal, DateText, DateOf, Zeros;
    if file.header.size == 0 {
      assert file.data == [];
    }
  }

  /** A member of an archive, wherever it lies, is read as the file it was written for. */
  lemma ReadsMember(before: seq<u8>, e: Entry, behind: seq<u8>)
    requires WellFormed(e)
    ensures var archive := before + (Member(e) + behind);
            && |before| + BLOCK_SIZE <= |archive|
            && ReadFile(archive, |before|) == if EntryListable(e) then Returns(FileOf(e)) else Panics
  {
    hide *;
    MemberSlices(before, e, behind);
    HeaderRoundTrip(e);
    ListableEntry(e);
    FileOfData(e);
    ReadsFile(before + (Member(e) + behind), |before|, FileOf(e));
  }

  lemma FileOfData(e: Entry)
    requires WellFormed(e)
    ensures FileOf(e).data == e.data && FileOf(e).header.size == |e.data|
    ensures FileOf(e) == File(FileOf(e).header, FileOf(e).data)
  {
  }

  lemma WalkMember(before: seq<u8>, e: Entry, behind: seq<u8>)
    requires WellFormed(e)
    ensures var archive := before + (Member(e) + behind);
            Walk(archive, |before|) ==
            if EntryListable(e) then Prepend([FileOf(e)], Walk(archive, |before + Member(e)|)) else Panics
  {
    hide WellFormed, EntryListable, FileOf, Member, HeaderBlock, ReadFile, Zeros;
    MemberSlices(before, e, behind);
    ReadsMember(before, e, behind);
    HeaderNotZero(e);
    MemberLength(e);
    FileOfData(e);
  }

  lemma AllCons(entries: seq<Entry>)
    requires entries != [] && AllWellFormed(entries)
    ensures WellFormed(entries[0]) && AllWellFormed(entries[1..])
    ensures AllListable(entries) <==> EntryListable(entries[0]) && AllListable(entries[1..])
  {
    hide WellFormed, EntryListable;
    assert entries == [entries[0]] + entries[1..];
  }

  /** The round trip below, for an archive that starts anywhere. */
  lemma {:induction false} RoundTripFrom(before: seq<u8>, entries: seq<Entry>, after: seq<u8>)
    requires AllWellFormed(entries)
    ensures Walk(before + (Archive(entries) + Zeros(BLOCK_SIZE) + after), |before|) ==
            if AllListable(entries) then Returns(FilesOf(entries)) else Panics
    decreases entries
  {
    hide WellFormed, EntryListable, FileOf, Member, Zeros;
    var archive := before + (Archive(entries) + Zeros(BLOCK_SIZE) + after);
    if entries == [] {
      assert archive[|before|..|before| + BLOCK_SIZE] == Zeros(BLOCK_SIZE);
    } else {
      hide AllWellFormed, AllListable, Walk;
      var e, rest := entries[0], entries[1..];
      AllCons(entries);
      var behind := Archive(rest) + Zeros(BLOCK_SIZE) + after;
      assert archive == before + (Member(e) + behind) == (before + Member(e)) + behind;
      WalkMember(before, e, behind);
      RoundTripFrom(before + Member(e), rest, after);
    }
  }

  /** Reading an archive gives back its entries, in order, with every byte of data, whatever
      those bytes are and whatever follows the zero block; unless some entry cannot be listed,
      in which case the walk, and with it the boot, panics. */
  lemma RoundTrip(entries: seq<Entry>, after: seq<u8>)
    requires AllWellFormed(entries)
    ensures Walk(Archive(entries) + Zeros(BLOCK_SIZE) + after, 0) ==
            if AllListable(entries) then Returns(FilesOf(entries)) else Panics
  {
    RoundTripFrom([], entries, after);
    assert [] + (Archive(entries) + Zeros(BLOCK_SIZE) + after) == Archive(entries) + Zeros(BLOCK_SIZE) + after;
  }
}
