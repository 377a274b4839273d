/**
 The ELF64 reader: little-endian records at the offsets of chapters 4 and 5 of the System V gABI,
 and the two table loops of `Elf::new`.
 */
module Elf {
  import opened Rust
  import opened Sequences
  import opened Initrd

  // ------------------------------------------------------------- little endian

  /** `from_le_bytes`. */
  function FromLe(bytes: seq<u8>): nat {
    if bytes == [] then 0 else bytes[0] + 256 * FromLe(bytes[1..])
  }

  function Pow256(n: nat): nat {
    if n == 0 then 1 else 256 * Pow256(n - 1)
  }

  lemma {:induction false} FromLeBound(bytes: seq<u8>)
    ensures FromLe(bytes) < Pow256(|bytes|)
  {
    if bytes == [] {
    } else {
      FromLeBound(bytes[1..]);
    }
  }

  lemma Pow256Values()
    ensures Pow256(1) == 0x100 && Pow256(2) == 0x1_0000 && Pow256(4) == TWO_POW_32 && Pow256(8) == TWO_POW_64
  {
    assert Pow256(2) == 0x1_0000;
    assert Pow256(4) == TWO_POW_32;
    assert Pow256(6) == 0x1_0000 * TWO_POW_32;
  }

  function Le(data: seq<u8>, at: nat, n: nat): (value: nat)
    requires at + n <= |data|
    ensures value < Pow256(n)
  {
    FromLeBound(data[at..at + n]);
    FromLe(data[at..at + n])
  }

  function Le16(data: seq<u8>, at: nat): u16
    requires at + 2 <= |data|
  {
    Pow256Values();
    Le(data, at, 2)
  }

  function Le32(data: seq<u8>, at: nat): u32
    requires at + 4 <= |data|
  {
    Pow256Values();
    Le(data, at, 4)
  }

  function Le64(data: seq<u8>, at: nat): u64
    requires at + 8 <= |data|
  {
    Pow256Values();
    Le(data, at, 8)
  }

  // ------------------------------------------------------------------- records

  datatype ElfHeader = ElfHeader(
    magic: u32, classByte: u8, dataByte: u8, versionByte: u8, osAbi: u8, abiVersion: u8, fileType:
    u16, machine: u16, execVersion: u32, entrypoint: u64, phOffset: u64, shOffset: u64, flags: u32,
    ehSize: u16, phSize: u16, phNumber: u16, shSize: u16, shNumber: u16, shIndex: u16)

  const HEADER_SIZE: nat := 64

  /** `Header::new`, which panics if the record does not fit. */
  function ParseElfHeader(data: seq<u8>): Outcome<ElfHeader> {
    if |data| < HEADER_SIZE then Panics
    else
      Returns(ElfHeader(
        Le32(data, 0), data[4], data[5], data[6], data[7], data[8], Le16(data, 16), Le16(data, 18),
        Le32(data, 20), Le64(data, 24), Le64(data, 32), Le64(data, 40), Le32(data, 48), Le16(data, 52),
        Le16(data, 54), Le16(data, 56), Le16(data, 58), Le16(data, 60), Le16(data, 62)))
  }

  datatype Program = Program(
    segmentType: u32, flags: u32, offset: u64, virtualAddress: u64, physicalAddress: u64, fileSize: u64,
    memorySize: u64, alignment: u64)

  const PROGRAM_SIZE: nat := 56

  /** `Program::new`, which panics if the record does not fit. */
  function ParseProgram(data: seq<u8>): Outcome<Program> {
    if |data| < PROGRAM_SIZE then Panics
    else
      Returns(Program(
        Le32(data, 0), Le32(data, 4), Le64(data, 8), Le64(data, 16), Le64(data, 24), Le64(data, 32),
        Le64(data, 40), Le64(data, 48)))
  }

  datatype Section = Section(
    name: u32, headerType: u32, flags: u64, address: u64, offset: u64, size: u64, link: u32, info: u32,
    alignment: u64, entrySize: u64)

  const SECTION_SIZE: nat := 64

  /** `Section::new`, which panics if the record does not fit. */
  function ParseSection(data: seq<u8>): Outcome<Section> {
    if |data| < SECTION_SIZE then Panics
    else
      Returns(Section(
        Le32(data, 0), Le32(data, 4), Le64(data, 8), Le64(data, 16), Le64(data, 24), Le64(data, 32),
        Le32(data, 40), Le32(data, 44), Le64(data, 48), Le64(data, 56)))
  }

  datatype Executable = Executable(header: ElfHeader, programs: seq<Program>, sections: seq<Section>)

  // --------------------------------------------------------------------- tables

  /** The bytes from a table's record on. The product of index and record size is taken in 16
      bits and the sum in 64; either may overflow, and the slice may start past the end. */
  function RecordAt(data: seq<u8>, offset: u64, index: u16, size: u16): Outcome<seq<u8>> {
    var product := Product(index, size);
    if product >= 0x1_0000 then Panics
    else if offset + product >= TWO_POW_64 then Panics
    else if offset + product > |data| then Panics
    else Returns(data[offset + product..])
  }

  function Product(index: nat, size: nat): nat {
    index * size
  }

  /** The records of a table from an index on, or a panic at the first that cannot be read. */
  function Records<T>(data: seq<u8>, offset: u64, size: u16, count: u16, parse: seq<u8> -> Outcome<T>, index: nat)
    : Outcome<seq<T>>
    requires index <= count
    decreases count - index
  {
    if index == count then Returns([])
    else
      var slice :- RecordAt(data, offset, index, size);
      var record :- parse(slice);
      var rest :- Records(data, offset, size, count, parse, index + 1);
      Returns([record] + rest)
  }

  function Programs(data: seq<u8>, h: ElfHeader, index: nat): Outcome<seq<Program>>
    requires index <= h.phNumber
  {
    Records(data, h.phOffset, h.phSize, h.phNumber, ParseProgram, index)
  }

  function Sections(data: seq<u8>, h: ElfHeader, index: nat): Outcome<seq<Section>>
    requires index <= h.shNumber
  {
    Records(data, h.shOffset, h.shSize, h.shNumber, ParseSection, index)
  }

  function Parse(data: seq<u8>): Outcome<Executable> {
    var header :- ParseElfHeader(data);
    var programs :- Programs(data, header, 0);
    var sections :- Sections(data, header, 0);
    Returns(Executable(header, programs, sections))
  }

  /** `Elf::new`. */
  method NewElf(initrd: Initrd, path: string) returns (r: Outcome<Executable>)
    ensures r == match GetData(initrd, path)
                 case Returns(data) => Parse(data)
                 case Panics => Panics
                 case Strays => Strays
  {
    hide GetData, ParseElfHeader, ParseProgram, ParseSection, RecordAt, Records, Prepend;
    var data := GetData(initrd, path);
    if !data.Returns? {
      return data.PropagateFailure();
    }
    var header := ParseElfHeader(data.value);
    if !header.Returns? {
      return header.PropagateFailure();
    }
    var h := header.value;

    var programs: seq<Program> := [];
    var index := 0;
    PrependNothing(Programs(data.value, h, 0));
    while index < h.phNumber
      invariant 0 <= index <= h.phNumber
      invariant Programs(data.value, h, 0) == Prepend(programs, Programs(data.value, h, index))
    {
      MoreRecords(data.value, h.phOffset, h.phSize, h.phNumber, ParseProgram, index, programs);
      var slice := RecordAt(data.value, h.phOffset, index, h.phSize);
      if !slice.Returns? {
        return slice.PropagateFailure();
      }
      var program := ParseProgram(slice.value);
      if !program.Returns? {
        return program.PropagateFailure();
      }
      programs := programs + [program.value];
      index := index + 1;
    }
    NoMoreRecords(data.value, h.phOffset, h.phSize, h.phNumber, ParseProgram, programs);

    var sections: seq<Section> := [];
    index := 0;
    PrependNothing(Sections(data.value, h, 0));
    while index < h.shNumber
      invariant 0 <= index <= h.shNumber
      invariant Sections(data.value, h, 0) == Prepend(sections, Sections(data.value, h, index))
    {
      MoreRecords(data.value, h.shOffset, h.shSize, h.shNumber, ParseSection, index, sections);
      var slice := RecordAt(data.value, h.shOffset, index, h.shSize);
      if !slice.Returns? {
        return slice.PropagateFailure();
      }
      var section := ParseSection(slice.value);
      if !section.Returns? {
        return section.PropagateFailure();
      }
      sections := sections + [section.value];
      index := index + 1;
    }
    NoMoreRecords(data.value, h.shOffset, h.shSize, h.shNumber, ParseSection, sections);

    r := Returns(Executable(h, programs, sections));
  }

  lemma MoreRecords<T>(data: seq<u8>, offset: u64, size: u16, count: u16, parse: seq<u8> -> Outcome<T>, index: nat,
                       done: seq<T>)
    requires index < count
    ensures Prepend(done, Records(data, offset, size, count, parse, index)) ==
            match RecordAt(data, offset, index, size)
            case Panics => Panics
            case Strays => Strays
            case Returns(slice) =>
              match parse(slice)
              case Panics => Panics
              case Strays => Strays
              case Returns(record) => Prepend(done + [record], Records(data, offset, size, count, parse, index + 1))
  {
    hide RecordAt;
    var slice := RecordAt(data, offset, index, size);
    if slice.Returns? && parse(slice.value).Returns? {
      var rest := Records(data, offset, size, count, parse, index + 1);
      if rest.Returns? {
        var record := parse(slice.value).value;
        assert done + ([record] + rest.value) == done + [record] + rest.value;
      }
    }
  }

  lemma NoMoreRecords<T>(data: seq<u8>, offset: u64, size: u16, count: u16, parse: seq<u8> -> Outcome<T>, done: seq<T>)
    ensures Prepend(done, Records(data, offset, size, count, parse, count)) == Returns(done)
  {
    assert done + [] == done;
  }
}
