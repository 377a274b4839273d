/**
 Writers for the ELF64 records and for whole images, and what the reader makes of them; and the
 exact images the reader accepts.
 */
module ElfImages {
  import opened Rust
  import opened Sequences
  import opened Elf

  // ------------------------------------------------------------- little endian

  function ToLe(value: nat, n: nat): (bytes: seq<u8>)
    ensures |bytes| == n
  {
    if n == 0 then [] else [value % 256] + ToLe(value / 256, n - 1)
  }

  lemma {:induction false} LeRoundTrip(value: nat, n: nat)
    requires value < Pow256(n)
    ensures FromLe(ToLe(value, n)) == value
  {
    if n == 0 {
    } else {
      LeRoundTrip(value / 256, n - 1);
    }
  }

  lemma {:induction false} LeUnique(bytes: seq<u8>)
    ensures ToLe(FromLe(bytes), |bytes|) == bytes
  {
    if bytes == [] {
    } else {
      LeUnique(bytes[1..]);
    }
  }

  // ---------------------------------------------------------- pieces in a row

  predicate HoldsAt(data: seq<u8>, at: nat, bytes: seq<u8>) {
    at + |bytes| <= |data| && data[at..at + |bytes|] == bytes
  }

  /** A little-endian piece of a record that starts the data reads as its value. */
  lemma PieceReads(data: seq<u8>, pieces: seq<seq<u8>>, offsets: seq<nat>, k: nat, value: nat, n: nat)
    requires Spaced(pieces, offsets) && k < |pieces| && HoldsAt(data, 0, Flat(pieces))
    requires pieces[k] == ToLe(value, n) && value < Pow256(n)
    ensures offsets[k] + n <= |data|
    ensures Le(data, offsets[k], n) == value
  {
    FlatSlice(pieces, offsets, k);
    LeRoundTrip(value, n);
    assert data[offsets[k]..offsets[k] + n] == data[0..|Flat(pieces)|][offsets[k]..offsets[k + 1]];
  }

  // ------------------------------------------------------------------- records

  function HeaderPieces(h: ElfHeader): (pieces: seq<seq<u8>>)
    ensures |pieces| == 20
  {
    [ToLe(h.magic, 4), ToLe(h.classByte, 1), ToLe(h.dataByte, 1), ToLe(h.versionByte, 1),
     ToLe(h.osAbi, 1), ToLe(h.abiVersion, 1), ToLe(0, 7), ToLe(h.fileType, 2), ToLe(h.machine, 2),
     ToLe(h.execVersion, 4), ToLe(h.entrypoint, 8), ToLe(h.phOffset, 8), ToLe(h.shOffset, 8),
     ToLe(h.flags, 4), ToLe(h.ehSize, 2), ToLe(h.phSize, 2), ToLe(h.phNumber, 2), ToLe(h.shSize, 2),
     ToLe(h.shNumber, 2), ToLe(h.shIndex, 2)]
  }

  const HEADER_OFFSETS: seq<nat> :=
    [0, 4, 5, 6, 7, 8, 9, 16, 18, 20, 24, 32, 40, 48, 52, 54, 56, 58, 60, 62, 64]

  function HeaderBytes(h: ElfHeader): seq<u8> {
    Flat(HeaderPieces(h))
  }

  lemma HeaderLength(h: ElfHeader)
    ensures |HeaderBytes(h)| == 64 && Spaced(HeaderPieces(h), HEADER_OFFSETS)
  {
    hide ToLe, Flat;
    FlatSlice(HeaderPieces(h), HEADER_OFFSETS, 0);
  }

  /** A header at the start of some data is read back whole. */
  lemma HeaderRoundTrip(data: seq<u8>, h: ElfHeader)
    requires HoldsAt(data, 0, HeaderBytes(h))
    ensures ParseElfHeader(data) == Returns(h)
  {
    hide ToLe, Flat, Le, FromLe, HoldsAt, Pow256, Spaced;
    HeaderLength(h);
    Pow256Values();
    DataLength(data, HeaderBytes(h));
    var pieces, offsets := HeaderPieces(h), HEADER_OFFSETS;
    PieceReads(data, pieces, offsets, 0, h.magic, 4);
    PieceReads(data, pieces, offsets, 1, h.classByte, 1);
    PieceReads(data, pieces, offsets, 2, h.dataByte, 1);
    PieceReads(data, pieces, offsets, 3, h.versionByte, 1);
    PieceReads(data, pieces, offsets, 4, h.osAbi, 1);
    PieceReads(data, pieces, offsets, 5, h.abiVersion, 1);
    PieceReads(data, pieces, offsets, 7, h.fileType, 2);
    PieceReads(data, pieces, offsets, 8, h.machine, 2);
    PieceReads(data, pieces, offsets, 9, h.execVersion, 4);
    PieceReads(data, pieces, offsets, 10, h.entrypoint, 8);
    PieceReads(data, pieces, offsets, 11, h.phOffset, 8);
    PieceReads(data, pieces, offsets, 12, h.shOffset, 8);
    PieceReads(data, pieces, offsets, 13, h.flags, 4);
    PieceReads(data, pieces, offsets, 14, h.ehSize, 2);
    PieceReads(data, pieces, offsets, 15, h.phSize, 2);
    PieceReads(data, pieces, offsets, 16, h.phNumber, 2);
    PieceReads(data, pieces, offsets, 17, h.shSize, 2);
    PieceReads(data, pieces, offsets, 18, h.shNumber, 2);
    PieceReads(data, pieces, offsets, 19, h.shIndex, 2);
    OneByte(data, 4);
    OneByte(data, 5);
    OneByte(data, 6);
    OneByte(data, 7);
    OneByte(data, 8);
  }

  lemma DataLength(data: seq<u8>, bytes: seq<u8>)
    requires HoldsAt(data, 0, bytes)
    ensures |bytes| <= |data|
  {
  }

  lemma OneByte(data: seq<u8>, at: nat)
    requires at < |data|
    ensures Le(data, at, 1) == data[at]
  {
    assert data[at..at + 1][1..] == [];
  }

  function ProgramPieces(p: Program): (pieces: seq<seq<u8>>)
    ensures |pieces| == 8
  {
    [ToLe(p.segmentType, 4), ToLe(p.flags, 4), ToLe(p.offset, 8), ToLe(p.virtualAddress, 8),
     ToLe(p.physicalAddress, 8), ToLe(p.fileSize, 8), ToLe(p.memorySize, 8), ToLe(p.alignment, 8)]
  }

  const PROGRAM_OFFSETS: seq<nat> :=
    [0, 4, 8, 16, 24, 32, 40, 48, 56]

  function ProgramBytes(p: Program): seq<u8> {
    Flat(ProgramPieces(p))
  }

  lemma ProgramLength(p: Program)
    ensures |ProgramBytes(p)| == 56 && Spaced(ProgramPieces(p), PROGRAM_OFFSETS)
  {
    hide ToLe, Flat;
    FlatSlice(ProgramPieces(p), PROGRAM_OFFSETS, 0);
  }

  /** A program header at the start of some data is read back whole. */
  lemma ProgramRoundTrip(data: seq<u8>, p: Program)
    requires HoldsAt(data, 0, ProgramBytes(p))
    ensures ParseProgram(data) == Returns(p)
  {
    hide ToLe, Flat, Le, FromLe, HoldsAt, Pow256, Spaced;
    ProgramLength(p);
    Pow256Values();
    DataLength(data, ProgramBytes(p));
    var pieces, offsets := ProgramPieces(p), PROGRAM_OFFSETS;
    PieceReads(data, pieces, offsets, 0, p.segmentType, 4);
    PieceReads(data, pieces, offsets, 1, p.flags, 4);
    PieceReads(data, pieces, offsets, 2, p.offset, 8);
    PieceReads(data, pieces, offsets, 3, p.virtualAddress, 8);
    PieceReads(data, pieces, offsets, 4, p.physicalAddress, 8);
    PieceReads(data, pieces, offsets, 5, p.fileSize, 8);
    PieceReads(data, pieces, offsets, 6, p.memorySize, 8);
    PieceReads(data, pieces, offsets, 7, p.alignment, 8);
  }

  function SectionPieces(s: Section): (pieces: seq<seq<u8>>)
    ensures |pieces| == 10
  {
    [ToLe(s.name, 4), ToLe(s.headerType, 4), ToLe(s.flags, 8), ToLe(s.address, 8), ToLe(s.offset, 8),
     ToLe(s.size, 8), ToLe(s.link, 4), ToLe(s.info, 4), ToLe(s.alignment, 8), ToLe(s.entrySize, 8)]
  }

  const SECTION_OFFSETS: seq<nat> :=
    [0, 4, 8, 16, 24, 32, 40, 44, 48, 56, 64]

  function SectionBytes(s: Section): seq<u8> {
    Flat(SectionPieces(s))
  }

  lemma SectionLength(s: Section)
    ensures |SectionBytes(s)| == 64 && Spaced(SectionPieces(s), SECTION_OFFSETS)
  {
    hide ToLe, Flat;
    FlatSlice(SectionPieces(s), SECTION_OFFSETS, 0);
  }

  /** A section header at the start of some data is read back whole. */
  lemma SectionRoundTrip(data: seq<u8>, s: Section)
    requires HoldsAt(data, 0, SectionBytes(s))
    ensures ParseSection(data) == Returns(s)
  {
    hide ToLe, Flat, Le, FromLe, HoldsAt, Pow256, Spaced;
    SectionLength(s);
    Pow256Values();
    DataLength(data, SectionBytes(s));
    var pieces, offsets := SectionPieces(s), SECTION_OFFSETS;
    PieceReads(data, pieces, offsets, 0, s.name, 4);
    PieceReads(data, pieces, offsets, 1, s.headerType, 4);
    PieceReads(data, pieces, offsets, 2, s.flags, 8);
    PieceReads(data, pieces, offsets, 3, s.address, 8);
    PieceReads(data, pieces, offsets, 4, s.offset, 8);
    PieceReads(data, pieces, offsets, 5, s.size, 8);
    PieceReads(data, pieces, offsets, 6, s.link, 4);
    PieceReads(data, pieces, offsets, 7, s.info, 4);
    PieceReads(data, pieces, offsets, 8, s.alignment, 8);
    PieceReads(data, pieces, offsets, 9, s.entrySize, 8);
  }

  // ----------------------------------------------------------------------- slots

  /** Where a record of a table is: each has a slot of the same size, behind the one before. */
  function Slot(index: nat, size: nat): nat {
    if index == 0 then 0 else Slot(index - 1, size) + size
  }

  lemma {:induction false} SlotIsProduct(index: nat, size: nat)
    ensures Slot(index, size) == Product(index, size)
  {
    if index == 0 {
    } else {
      SlotIsProduct(index - 1, size);
    }
  }

  lemma {:induction false} SlotMonotonic(i: nat, j: nat, size: nat)
    requires i <= j
    ensures Slot(i, size) <= Slot(j, size)
  {
    if i == j {
    } else {
      SlotMonotonic(i, j - 1, size);
    }
  }

  // ---------------------------------------------------- the images the reader accepts

  /** A table can be read when it is empty, or when its last record starts within 16 bits of
      the table's offset, within 64 bits, and ends within the data. */
  predicate TableReadable(length: nat, offset: u64, size: u16, count: u16, recordSize: nat) {
    count == 0 || (Slot(count - 1, size) < 0x1_0000 && offset + Slot(count - 1, size) < TWO_POW_64
                   && offset + Slot(count - 1, size) + recordSize <= length)
  }

  /** A record parser that needs so many bytes and no more. */
  ghost predicate NeedsOnly<T(!new)>(parse: seq<u8> -> Outcome<T>, recordSize: nat) {
    forall data :: (if |data| >= recordSize then parse(data).Returns? else parse(data) == Panics)
  }

  lemma {:induction false} RecordsIff<T(!new)>(data: seq<u8>, offset: u64, size: u16, count: u16,
                                               parse: seq<u8> -> Outcome<T>, recordSize: nat, index: nat)
    requires NeedsOnly(parse, recordSize) && index < count
    ensures if TableReadable(|data|, offset, size, count, recordSize)
            then Records(data, offset, size, count, parse, index).Returns?
            else Records(data, offset, size, count, parse, index) == Panics
    decreases count - index
  {
    hide Slot, Product;
    SlotMonotonic(index, count - 1, size);
    SlotIsProduct(index, size);
    if index + 1 == count {
    } else {
      RecordsIff(data, offset, size, count, parse, recordSize, index + 1);
    }
  }

  lemma ParsersNeed()
    ensures NeedsOnly(ParseProgram, PROGRAM_SIZE) && NeedsOnly(ParseSection, SECTION_SIZE)
  {
  }

  lemma TableIff<T(!new)>(data: seq<u8>, offset: u64, size: u16, count: u16, parse: seq<u8> -> Outcome<T>, recordSize: nat)
    requires NeedsOnly(parse, recordSize)
    ensures if TableReadable(|data|, offset, size, count, recordSize)
            then Records(data, offset, size, count, parse, 0).Returns?
            else Records(data, offset, size, count, parse, 0) == Panics
  {
    if count > 0 {
      RecordsIff(data, offset, size, count, parse, recordSize, 0);
    }
  }

  /** The reader returns exactly when the header and both tables can be read, and panics on
      every other sequence of bytes. */
  lemma ParseIff(data: seq<u8>)
    ensures if && |data| >= HEADER_SIZE
               && var h := ParseElfHeader(data).value;
                  && TableReadable(|data|, h.phOffset, h.phSize, h.phNumber, PROGRAM_SIZE)
                  && TableReadable(|data|, h.shOffset, h.shSize, h.shNumber, SECTION_SIZE)
            then Parse(data).Returns?
            else Parse(data) == Panics
  {
    ParsersNeed();
    hide ParseProgram, ParseSection, NeedsOnly, TableReadable, Records;
    if |data| >= HEADER_SIZE {
      var h := ParseElfHeader(data).value;
      hide ParseElfHeader;
      TableIff(data, h.phOffset, h.phSize, h.phNumber, ParseProgram, PROGRAM_SIZE);
      TableIff(data, h.shOffset, h.shSize, h.shNumber, ParseSection, SECTION_SIZE);
    }
  }

  // ----------------------------------------------------------------- whole images

  datatype Placement = Placement(at: nat, bytes: seq<u8>)

  function Write(data: seq<u8>, p: Placement): (written: seq<u8>)
    requires p.at + |p.bytes| <= |data|
    ensures |written| == |data|
  {
    data[..p.at] + p.bytes + data[p.at + |p.bytes|..]
  }

  predicate InRange(length: nat, placements: seq<Placement>) {
    forall i :: 0 <= i < |placements| ==> placements[i].at + |placements[i].bytes| <= length
  }

  predicate Apart(p: Placement, q: Placement) {
    p.at + |p.bytes| <= q.at || q.at + |q.bytes| <= p.at
  }

  predicate PairwiseApart(placements: seq<Placement>) {
    forall i, j :: 0 <= i < j < |placements| ==> Apart(placements[i], placements[j])
  }

  /** Some data with records written over it, one after another. */
  function WriteAll(data: seq<u8>, placements: seq<Placement>): (written: seq<u8>)
    requires InRange(|data|, placements)
    ensures |written| == |data|
  {
    if placements == [] then data
    else Write(WriteAll(data, placements[..|placements| - 1]), placements[|placements| - 1])
  }

  lemma WriteElsewhere(data: seq<u8>, p: Placement, q: Placement)
    requires q.at + |q.bytes| <= |data| && Apart(p, q) && HoldsAt(data, p.at, p.bytes)
    ensures HoldsAt(Write(data, q), p.at, p.bytes)
  {
  }

  lemma {:induction false} AllHeld(data: seq<u8>, placements: seq<Placement>, i: nat)
    requires InRange(|data|, placements) && PairwiseApart(placements) && i < |placements|
    ensures HoldsAt(WriteAll(data, placements), placements[i].at, placements[i].bytes)
  {
    hide HoldsAt, Write;
    var last := |placements| - 1;
    var before := WriteAll(data, placements[..last]);
    if i < last {
      AllHeld(data, placements[..last], i);
      WriteElsewhere(before, placements[i], placements[last]);
    } else {
      WriteHolds(before, placements[last]);
    }
  }

  lemma WriteHolds(data: seq<u8>, p: Placement)
    requires p.at + |p.bytes| <= |data|
    ensures HoldsAt(Write(data, p), p.at, p.bytes)
  {
  }

  function ProgramPlacement(e: Executable, i: nat): Placement
    requires i < |e.programs|
  {
    Placement(e.header.phOffset + Slot(i, e.header.phSize), ProgramBytes(e.programs[i]))
  }

  function SectionPlacement(e: Executable, i: nat): Placement
    requires i < |e.sections|
  {
    Placement(e.header.shOffset + Slot(i, e.header.shSize), SectionBytes(e.sections[i]))
  }

  /** The header, then the program headers, then the section headers. */
  function Placements(e: Executable): (placements: seq<Placement>)
    ensures |placements| == 1 + |e.programs| + |e.sections|
  {
    [Placement(0, HeaderBytes(e.header))]
    + seq(|e.programs|, i requires 0 <= i < |e.programs| => ProgramPlacement(e, i))
    + seq(|e.sections|, i requires 0 <= i < |e.sections| => SectionPlacement(e, i))
  }

  /** A table's extent in the image. */
  function TableEnd(offset: nat, size: nat, count: nat): nat {
    offset + Slot(count, size)
  }

  /** What a linker has to respect: the counts match, records are no longer than their slots,
      the tables lie in the image and overlap neither each other nor the header, and neither
      table is so long that the reader's 16-bit product overflows. */
  predicate WellFormed(e: Executable, length: nat) {
    var h := e.header;
    && |e.programs| == h.phNumber && |e.sections| == h.shNumber
    && HEADER_SIZE <= length < TWO_POW_64
    && (h.phNumber > 0 ==>
          && PROGRAM_SIZE <= h.phSize && HEADER_SIZE <= h.phOffset && TableEnd(h.phOffset, h.phSize, h.phNumber) <= length
          && Slot(h.phNumber - 1, h.phSize) < 0x1_0000)
    && (h.shNumber > 0 ==>
          && SECTION_SIZE <= h.shSize && HEADER_SIZE <= h.shOffset && TableEnd(h.shOffset, h.shSize, h.shNumber) <= length
          && Slot(h.shNumber - 1, h.shSize) < 0x1_0000)
    && (h.phNumber > 0 && h.shNumber > 0 ==>
          || TableEnd(h.phOffset, h.phSize, h.phNumber) <= h.shOffset
          || TableEnd(h.shOffset, h.shSize, h.shNumber) <= h.phOffset)
  }

  lemma SlotInTable(size: nat, count: nat, i: nat, recordSize: nat)
    requires i < count && recordSize <= size
    ensures Slot(i, size) + recordSize <= Slot(count, size)
  {
    SlotMonotonic(i + 1, count, size);
  }

  lemma ProgramInTable(e: Executable, length: nat, i: nat)
    requires WellFormed(e, length) && i < |e.programs|
    ensures var p := ProgramPlacement(e, i);
            && e.header.phOffset <= p.at
            && p.at + |p.bytes| <= TableEnd(e.header.phOffset, e.header.phSize, e.header.phNumber) <= length
  {
    ProgramLength(e.programs[i]);
    SlotInTable(e.header.phSize, e.header.phNumber, i, PROGRAM_SIZE);
  }

  lemma SectionInTable(e: Executable, length: nat, i: nat)
    requires WellFormed(e, length) && i < |e.sections|
    ensures var p := SectionPlacement(e, i);
            && e.header.shOffset <= p.at
            && p.at + |p.bytes| <= TableEnd(e.header.shOffset, e.header.shSize, e.header.shNumber) <= length
  {
    SectionLength(e.sections[i]);
    SlotInTable(e.header.shSize, e.header.shNumber, i, SECTION_SIZE);
  }

  /** The three kinds of placements. */
  lemma PlacementAt(e: Executable, i: nat)
    requires i < |Placements(e)|
    ensures Placements(e)[i] ==
            if i == 0 then Placement(0, HeaderBytes(e.header))
            else if i <= |e.programs| then ProgramPlacement(e, i - 1)
            else SectionPlacement(e, i - 1 - |e.programs|)
  {
    hide ProgramPlacement, SectionPlacement, HeaderBytes;
  }

  lemma PlacementsInRange(e: Executable, length: nat)
    requires WellFormed(e, length)
    ensures InRange(length, Placements(e))
  {
    hide Placements, HeaderBytes, ProgramPlacement, SectionPlacement, TableEnd;
    forall i | 0 <= i < |Placements(e)|
      ensures Placements(e)[i].at + |Placements(e)[i].bytes| <= length
    {
      PlacementAt(e, i);
      if i == 0 {
        HeaderLength(e.header);
      } else if i <= |e.programs| {
        ProgramInTable(e, length, i - 1);
      } else {
        SectionInTable(e, length, i - 1 - |e.programs|);
      }
    }
  }

  lemma ProgramsApart(e: Executable, length: nat, i: nat, j: nat)
    requires WellFormed(e, length) && i < j < |e.programs|
    ensures Apart(ProgramPlacement(e, i), ProgramPlacement(e, j))
  {
    hide ProgramBytes, Slot, TableEnd;
    ProgramLength(e.programs[i]);
    SlotInTable(e.header.phSize, j, i, PROGRAM_SIZE);
  }

  lemma SectionsApart(e: Executable, length: nat, i: nat, j: nat)
    requires WellFormed(e, length) && i < j < |e.sections|
    ensures Apart(SectionPlacement(e, i), SectionPlacement(e, j))
  {
    hide SectionBytes, Slot, TableEnd;
    SectionLength(e.sections[i]);
    SlotInTable(e.header.shSize, j, i, SECTION_SIZE);
  }

  lemma TablesApart(e: Executable, length: nat, i: nat, j: nat)
    requires WellFormed(e, length) && i < |e.programs| && j < |e.sections|
    ensures Apart(ProgramPlacement(e, i), SectionPlacement(e, j))
  {
    hide ProgramPlacement, SectionPlacement, Slot, TableEnd;
    ProgramInTable(e, length, i);
    SectionInTable(e, length, j);
  }

  lemma HeaderApart(e: Executable, length: nat, i: nat)
    requires WellFormed(e, length)
    ensures i < |e.programs| ==> Apart(Placement(0, HeaderBytes(e.header)), ProgramPlacement(e, i))
    ensures i < |e.sections| ==> Apart(Placement(0, HeaderBytes(e.header)), SectionPlacement(e, i))
  {
    hide HeaderBytes, ProgramBytes, SectionBytes, Slot, TableEnd;
    HeaderLength(e.header);
  }

  lemma PlacementsApart(e: Executable, length: nat)
    requires WellFormed(e, length)
    ensures PairwiseApart(Placements(e))
  {
    hide Placements, HeaderBytes, ProgramPlacement, SectionPlacement, WellFormed, Apart;
    var n := |e.programs|;
    forall i, j | 0 <= i < j < |Placements(e)|
      ensures Apart(Placements(e)[i], Placements(e)[j])
    {
      PlacementAt(e, i);
      PlacementAt(e, j);
      if i == 0 {
        HeaderApart(e, length, if j <= n then j - 1 else j - 1 - n);
      } else if j <= n {
        ProgramsApart(e, length, i - 1, j - 1);
      } else if i <= n {
        TablesApart(e, length, i - 1, j - 1 - n);
      } else {
        SectionsApart(e, length, i - 1 - n, j - 1 - n);
      }
    }
  }

  predicate Placed(data: seq<u8>, p: Placement) {
    HoldsAt(data, p.at, p.bytes)
  }

  lemma TailHolds(data: seq<u8>, at: nat, bytes: seq<u8>)
    requires HoldsAt(data, at, bytes)
    ensures at <= |data| && HoldsAt(data[at..], 0, bytes)
  {
    assert data[at..][0..|bytes|] == data[at..at + |bytes|];
  }

  lemma RecordSlice(data: seq<u8>, offset: u64, index: u16, size: u16, bytes: seq<u8>)
    requires HoldsAt(data, offset + Slot(index, size), bytes)
    requires Slot(index, size) < 0x1_0000 && |data| < TWO_POW_64 && bytes != []
    ensures RecordAt(data, offset, index, size).Returns?
    ensures HoldsAt(RecordAt(data, offset, index, size).value, 0, bytes)
  {
    hide Slot, Product;
    SlotIsProduct(index, size);
    TailHolds(data, offset + Slot(index, size), bytes);
  }

  /** A table's record of that number can be reached and is what it should be. */
  ghost predicate RecordReads<T(!new)>(data: seq<u8>, offset: u64, size: u16, parse: seq<u8> -> Outcome<T>, index: u16,
                                       record: T)
  {
    var slice := RecordAt(data, offset, index, size);
    slice.Returns? && parse(slice.value) == Returns(record)
  }

  lemma {:induction false} ReadsRecords<T(!new)>(data: seq<u8>, offset: u64, size: u16, parse: seq<u8> -> Outcome<T>,
                                                 records: seq<T>, index: nat)
    requires index <= |records| < 0x1_0000
    requires forall i :: 0 <= i < |records| ==> RecordReads(data, offset, size, parse, i, records[i])
    ensures Records(data, offset, size, |records|, parse, index) == Returns(records[index..])
    decreases |records| - index
  {
    if index == |records| {
    } else {
      hide RecordAt;
      assert RecordReads(data, offset, size, parse, index, records[index]);
      ReadsRecords(data, offset, size, parse, records, index + 1);
      assert records[index..] == [records[index]] + records[index + 1..];
    }
  }

  lemma ReadsProgram(data: seq<u8>, e: Executable, i: nat)
    requires WellFormed(e, |data|) && i < |e.programs| && Placed(data, ProgramPlacement(e, i))
    ensures RecordReads(data, e.header.phOffset, e.header.phSize, ParseProgram, i, e.programs[i])
  {
    hide HoldsAt, Slot, ProgramBytes, RecordAt, ParseProgram, TableEnd;
    var h, program := e.header, e.programs[i];
    SlotMonotonic(i, h.phNumber - 1, h.phSize);
    ProgramLength(program);
    RecordSlice(data, h.phOffset, i, h.phSize, ProgramBytes(program));
    ProgramRoundTrip(RecordAt(data, h.phOffset, i, h.phSize).value, program);
  }

  lemma ReadsSection(data: seq<u8>, e: Executable, i: nat)
    requires WellFormed(e, |data|) && i < |e.sections| && Placed(data, SectionPlacement(e, i))
    ensures RecordReads(data, e.header.shOffset, e.header.shSize, ParseSection, i, e.sections[i])
  {
    hide HoldsAt, Slot, SectionBytes, RecordAt, ParseSection, TableEnd;
    var h, section := e.header, e.sections[i];
    SlotMonotonic(i, h.shNumber - 1, h.shSize);
    SectionLength(section);
    RecordSlice(data, h.shOffset, i, h.shSize, SectionBytes(section));
    SectionRoundTrip(RecordAt(data, h.shOffset, i, h.shSize).value, section);
  }

  lemma ReadsTables(data: seq<u8>, e: Executable)
    requires WellFormed(e, |data|)
    requires forall i :: 0 <= i < |e.programs| ==> Placed(data, ProgramPlacement(e, i))
    requires forall i :: 0 <= i < |e.sections| ==> Placed(data, SectionPlacement(e, i))
    ensures |e.programs| == e.header.phNumber && Programs(data, e.header, 0) == Returns(e.programs)
    ensures |e.sections| == e.header.shNumber && Sections(data, e.header, 0) == Returns(e.sections)
  {
    hide WellFormed, Placed, ProgramPlacement, SectionPlacement, RecordReads, Records, ParseProgram, ParseSection;
    var h := e.header;
    WellFormedCounts(e, |data|);
    forall i | 0 <= i < |e.programs|
      ensures RecordReads(data, h.phOffset, h.phSize, ParseProgram, i, e.programs[i])
    {
      ReadsProgram(data, e, i);
    }
    forall i | 0 <= i < |e.sections|
      ensures RecordReads(data, h.shOffset, h.shSize, ParseSection, i, e.sections[i])
    {
      ReadsSection(data, e, i);
    }
    ReadsRecords(data, h.phOffset, h.phSize, ParseProgram, e.programs, 0);
    ReadsRecords(data, h.shOffset, h.shSize, ParseSection, e.sections, 0);
    assert e.programs[0..] == e.programs && e.sections[0..] == e.sections;
  }

  lemma WellFormedCounts(e: Executable, length: nat)
    requires WellFormed(e, length)
    ensures |e.programs| == e.header.phNumber && |e.sections| == e.header.shNumber
  {
  }

  lemma AllPlaced(blob: seq<u8>, e: Executable)
    requires WellFormed(e, |blob|)
    ensures InRange(|blob|, Placements(e))
    ensures var data := WriteAll(blob, Placements(e));
            && HoldsAt(data, 0, HeaderBytes(e.header))
            && (forall i :: 0 <= i < |e.programs| ==> Placed(data, ProgramPlacement(e, i)))
            && (forall i :: 0 <= i < |e.sections| ==> Placed(data, SectionPlacement(e, i)))
  {
    hide Placements, HoldsAt, HeaderBytes, ProgramPlacement, SectionPlacement, WellFormed, WriteAll;
    var placements := Placements(e);
    PlacementsInRange(e, |blob|);
    PlacementsApart(e, |blob|);
    AllHeld(blob, placements, 0);
    PlacementAt(e, 0);
    forall i | 0 <= i < |e.programs|
      ensures Placed(WriteAll(blob, placements), ProgramPlacement(e, i))
    {
      AllHeld(blob, placements, i + 1);
      PlacementAt(e, i + 1);
    }
    forall i | 0 <= i < |e.sections|
      ensures Placed(WriteAll(blob, placements), SectionPlacement(e, i))
    {
      AllHeld(blob, placements, i + 1 + |e.programs|);
      PlacementAt(e, i + 1 + |e.programs|);
    }
  }

  /** Whatever else an image holds, once a well-formed header and its two tables have been
      written into it, the reader recovers every field of every record, in order. */
  lemma ImageRoundTrip(blob: seq<u8>, e: Executable)
    requires WellFormed(e, |blob|)
    ensures InRange(|blob|, Placements(e))
    ensures Parse(WriteAll(blob, Placements(e))) == Returns(e)
  {
    hide Placements, HoldsAt, HeaderBytes, ProgramPlacement, SectionPlacement, WellFormed, Programs, Sections,
      ParseElfHeader, WriteAll, Placed, InRange;
    AllPlaced(blob, e);
    var data := WriteAll(blob, Placements(e));
    HeaderRoundTrip(data, e.header);
    ReadsTables(data, e);
  }
}
