/**
 The initial ramdisk: a walk over a tar archive in 512-byte blocks, and the listing line that
 is formatted for every file on the way (for the log), which is why a file that cannot be
 listed stops the walk.

 The archive is the byte sequence of the boot module, and an address is an offset into it.
 */
module Initrd {
  import opened Rust
  import opened Sequences
  import opened Utf8
  import opened Numerals
  import opened Calendar

  const BLOCK_SIZE: nat := 512

  datatype Header = Header(
    name: string, mode: u32, userId: u32, groupId: u32, size: u32, mtime: u32, checksum: string,
    flag: u32, linked: string, indicator: string, version: string, username: string,
    group: string, major: u32, minor: u32, prefix: string)

  datatype File = File(header: Header, data: seq<u8>)

  datatype Initrd = Initrd(files: seq<File>)

  function Zeros(n: nat): (zeros: seq<u8>)
    ensures |zeros| == n
  {
    seq(n, _ => 0)
  }

  // ------------------------------------------------------------------- fields

  /** `trim_end_matches('\0')`. */
  function TrimNul(s: string): string {
    if s != "" && s[|s| - 1] == '\0' then TrimNul(s[..|s| - 1]) else s
  }

  function ParseSlice(block: seq<u8>, offset: nat, length: nat): Outcome<string>
    requires offset + length <= |block|
  {
    var text :- Unwrap(FromUtf8(block[offset..offset + length]));
    Returns(TrimNul(text))
  }

  /** Read in decimal; anything that is not a number counts as 0. */
  function ParseInteger(block: seq<u8>, offset: nat, length: nat): Outcome<u32>
    requires offset + length <= |block|
  {
    var text :- ParseSlice(block, offset, length);
    match FromStrRadix(text, 10, TWO_POW_32)
    case Some(n) => Returns(n)
    case None => Returns(0)
  }

  function ParseOctal(block: seq<u8>, offset: nat, length: nat): Outcome<u32>
    requires offset + length <= |block|
  {
    var text :- ParseSlice(block, offset, length);
    match FromStrRadix(text, 8, TWO_POW_32)
    case Some(n) => Returns(n)
    case None => Panics
  }

  function ParseHeader(block: seq<u8>): Outcome<Header>
    requires |block| == BLOCK_SIZE
  {
    var name :- ParseSlice(block, 0, 100);
    var mode :- ParseInteger(block, 100, 8);
    var userId :- ParseOctal(block, 108, 8);
    var groupId :- ParseOctal(block, 116, 8);
    var size :- ParseOctal(block, 124, 12);
    var mtime :- ParseOctal(block, 136, 12);
    var checksum :- ParseSlice(block, 148, 8);
    var flag :- ParseInteger(block, 156, 1);
    var linked :- ParseSlice(block, 157, 100);
    var indicator :- ParseSlice(block, 257, 6);
    var version :- ParseSlice(block, 263, 2);
    var username :- ParseSlice(block, 265, 32);
    var group :- ParseSlice(block, 297, 32);
    var major :- ParseInteger(block, 329, 8);
    var minor :- ParseInteger(block, 337, 8);
    var prefix :- ParseSlice(block, 345, 155);
    Returns(Header(name, mode, userId, groupId, size, mtime, checksum, flag, linked, indicator, version,
                   username, group, major, minor, prefix))
  }

  // ------------------------------------------------------------------ listing

  /** `File::parse_permission`: bit tests for read, write and execute. */
  function Permission(digit: nat): string {
    [if digit / 4 % 2 == 1 then 'r' else '-',
     if digit / 2 % 2 == 1 then 'w' else '-',
     if digit % 2 == 1 then 'x' else '-']
  }

  /** `{:02}`. */
  function TwoDigits(n: nat): string {
    if n < 10 then "0" + Decimal(n) else Decimal(n)
  }

  function DateText(d: DateTime): string {
    Decimal(d.year) + "-" + TwoDigits(d.month) + "-" + TwoDigits(d.day) + " "
    + TwoDigits(d.hour) + ":" + TwoDigits(d.minute) + ":" + TwoDigits(d.second)
  }

  function DigitAt(s: string, i: nat): nat
    requires i < |s| && AllDigits(s, 10)
  {
    s[i] as int - '0' as int
  }

  /** A file can be listed when its mode has the three digits that are looked at and its time
      is one that the date loops survive. */
  predicate Listable(mode: u32, mtime: u32) {
    |Decimal(mode)| >= 3 && Datable(mtime)
  }

  /** The mode column: the type, then the first three decimal digits of the stored mode. */
  function ModeText(header: Header): string
    requires |Decimal(header.mode)| >= 3
  {
    var digits := Decimal(header.mode);
    [if header.flag == 5 then 'd' else '-']
    + Permission(DigitAt(digits, 0)) + Permission(DigitAt(digits, 1)) + Permission(DigitAt(digits, 2))
  }

  function Listing(file: File): Outcome<string> {
    var h := file.header;
    if Listable(h.mode, h.mtime) then
      Returns(ModeText(h) + " " + h.username + "/" + h.group + " " + Decimal(h.size) + " "
              + DateText(DateOf(h.mtime)) + " " + h.name)
    else
      Panics
  }

  /** `Display for File`. */
  method Display(file: File) returns (r: Outcome<string>)
    ensures r == Listing(file)
  {
    var h := file.header;
    var flag := if h.flag == 5 then "d" else "-";
    var digits := Decimal(h.mode);
    if |digits| < 3 {
      return Panics;
    }
    var owner := Permission(DigitAt(digits, 0));
    var group := Permission(DigitAt(digits, 1));
    var other := Permission(DigitAt(digits, 2));
    var permissions := flag + owner + group + other;
    var timestamp := ParseTimestamp(h.mtime);
    if !timestamp.Returns? {
      return Panics;
    }
    r := Returns(permissions + " " + h.username + "/" + h.group + " " + Decimal(h.size) + " "
                 + DateText(timestamp.value) + " " + h.name);
  }

  // --------------------------------------------------------------------- walk

  function DivCeil(n: nat, d: nat): nat
    requires d > 0
  {
    (n + d - 1) / d
  }

  /** The file whose header block is at an address that has a whole block to read. */
  function ReadFile(archive: seq<u8>, address: nat): (r: Outcome<File>)
    requires address + BLOCK_SIZE <= |archive|
    ensures r.Returns? ==> |r.value.data| == r.value.header.size
  {
    var header :- ParseHeader(archive[address..address + BLOCK_SIZE]);
    var start := address + BLOCK_SIZE;
    if header.size != 0 && start + header.size > |archive| then Strays
    else
      var file := File(header, if header.size == 0 then [] else archive[start..start + header.size]);
      var _ :- Listing(file);
      Returns(file)
  }

  function NextAddress(address: nat, size: nat): nat {
    address + BLOCK_SIZE + BLOCK_SIZE * DivCeil(size, BLOCK_SIZE)
  }

  /** The files from an address up to the first zero block found where a header should be. */
  function Walk(archive: seq<u8>, address: nat): Outcome<seq<File>>
    decreases |archive| - address
  {
    if address + BLOCK_SIZE > |archive| then Strays
    else if archive[address..address + BLOCK_SIZE] == Zeros(BLOCK_SIZE) then Returns([])
    else
      var file :- ReadFile(archive, address);
      var rest :- Walk(archive, NextAddress(address, file.header.size));
      Returns([file] + rest)
  }

  lemma WalkOneMore(archive: seq<u8>, address: nat, files: seq<File>)
    requires address + BLOCK_SIZE <= |archive|
    requires archive[address..address + BLOCK_SIZE] != Zeros(BLOCK_SIZE)
    ensures var read := ReadFile(archive, address);
            Prepend(files, Walk(archive, address)) ==
            match read
            case Returns(file) => Prepend(files + [file], Walk(archive, NextAddress(address, file.header.size)))
            case Panics => Panics
            case Strays => Strays
  {
    hide ReadFile;
    var read := ReadFile(archive, address);
    if read.Returns? {
      var rest := Walk(archive, NextAddress(address, read.value.header.size));
      if rest.Returns? {
        assert files + ([read.value] + rest.value) == files + [read.value] + rest.value;
      }
    }
  }

  lemma WalkEnd(archive: seq<u8>, address: nat, files: seq<File>)
    requires address + BLOCK_SIZE <= |archive| ==> archive[address..address + BLOCK_SIZE] == Zeros(BLOCK_SIZE)
    ensures Prepend(files, Walk(archive, address)) == if address + BLOCK_SIZE > |archive| then Strays else Returns(files)
  {
    assert files + [] == files;
  }

  /** `Initrd::new`. */
  method NewInitrd(archive: seq<u8>) returns (r: Outcome<Initrd>)
    ensures r == match Walk(archive, 0)
                 case Returns(files) => Returns(Initrd(files))
                 case Panics => Panics
                 case Strays => Strays
  {
    hide Walk, Prepend, ParseHeader, Listing, Zeros, DivCeil;
    var address: nat := 0;
    var files := [];
    PrependNothing(Walk(archive, 0));
    while true
      invariant Walk(archive, 0) == Prepend(files, Walk(archive, address))
      decreases |archive| - address
    {
      if address + BLOCK_SIZE > |archive| {
        WalkEnd(archive, address, files);
        return Strays;
      }
      var block := archive[address..address + BLOCK_SIZE];
      if block == Zeros(BLOCK_SIZE) {
        WalkEnd(archive, address, files);
        break;
      }
      WalkOneMore(archive, address, files);
      var header := ParseHeader(block);
      if !header.Returns? {
        return header.PropagateFailure();
      }
      var size := header.value.size;
      var data := [];
      if size != 0 {
        address := address + BLOCK_SIZE;
        if address + size > |archive| {
          return Strays;
        }
        data := archive[address..address + size];
        address := address + BLOCK_SIZE * DivCeil(size, BLOCK_SIZE);
      } else {
        address := address + BLOCK_SIZE;
      }
      assert DivCeil(0, BLOCK_SIZE) == 0 by { NothingToCeil(); }
      var file := File(header.value, data);
      var listing := Display(file);
      if !listing.Returns? {
        return listing.PropagateFailure();
      }
      files := files + [file];
    }
    r := Returns(Initrd(files));
  }

  lemma NothingToCeil()
    ensures DivCeil(0, BLOCK_SIZE) == 0
  {
  }

  /** `Initrd::get_data`: the contents of the first file of that name. */
  function GetData(initrd: Initrd, path: string): Outcome<seq<u8>>
    decreases |initrd.files|
  {
    if initrd.files == [] then Panics
    else if initrd.files[0].header.name == path then Returns(initrd.files[0].data)
    else GetData(Initrd(initrd.files[1..]), path)
  }
}
