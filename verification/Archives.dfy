/**
 Any archive at all: what it means, declaratively, for the walk to return a list of files; and
 what a reader of an archive finds in it afterwards.
 */
module Archives {
  import opened Rust
  import opened Sequences
  import opened Arithmetic
  import opened Numerals
  import opened Calendar
  import opened Initrd
  import opened Ustar

  /** The number of blocks that the first k files take up: a header each, and their data
      rounded up to whole blocks. */
  function Blocks(files: seq<File>, k: nat): nat
    requires k <= |files|
  {
    if k == 0 then 0 else 1 + DivCeil(|files[0].data|, BLOCK_SIZE) + Blocks(files[1..], k - 1)
  }

  function Position(address: nat, files: seq<File>, k: nat): nat
    requires k <= |files|
  {
    address + BLOCK_SIZE * Blocks(files, k)
  }

  /** A file lies at an address: a header block that is not zero and reads as the file's header,
      then the file's data; and the file can be listed. */
  predicate FileAt(archive: seq<u8>, address: nat, file: File) {
    && address + BLOCK_SIZE + |file.data| <= |archive|
    && archive[address..address + BLOCK_SIZE] != Zeros(BLOCK_SIZE)
    && ParseHeader(archive[address..address + BLOCK_SIZE]) == Returns(file.header)
    && file.header.size == |file.data|
    && file.data == archive[address + BLOCK_SIZE..address + BLOCK_SIZE + |file.data|]
    && Listable(file.header.mode, file.header.mtime)
  }

  predicate EndsAt(archive: seq<u8>, address: nat) {
    && address + BLOCK_SIZE <= |archive|
    && archive[address..address + BLOCK_SIZE] == Zeros(BLOCK_SIZE)
  }

  /** Each file lies at its position. */
  predicate FilesLie(archive: seq<u8>, address: nat, files: seq<File>) {
    forall k :: 0 <= k < |files| ==> FileAt(archive, Position(address, files, k), files[k])
  }

  /** And a zero block lies where the next header would. */
  predicate LaidOut(archive: seq<u8>, address: nat, files: seq<File>) {
    FilesLie(archive, address, files) && EndsAt(archive, Position(address, files, |files|))
  }

  /** An address where there is neither a file nor the end. */
  ghost predicate NothingAt(archive: seq<u8>, address: nat) {
    !EndsAt(archive, address) && forall file :: !FileAt(archive, address, file)
  }

  /** What goes wrong there: the archive stops short of a header or of the data that a header
      announces, or the header cannot be parsed, or the file cannot be listed. */
  function FaultAt(archive: seq<u8>, address: nat): Outcome<seq<File>> {
    if address + BLOCK_SIZE > |archive| then Strays
    else
      match ParseHeader(archive[address..address + BLOCK_SIZE])
      case Returns(h) => if h.size > 0 && address + BLOCK_SIZE + h.size > |archive| then Strays else Panics
      case _ => Panics
  }

  lemma ReadFileIff(archive: seq<u8>, address: nat, file: File)
    requires address + BLOCK_SIZE <= |archive|
    requires archive[address..address + BLOCK_SIZE] != Zeros(BLOCK_SIZE)
    ensures ReadFile(archive, address) == Returns(file) <==> FileAt(archive, address, file)
  {
    hide ParseHeader, Listable, Zeros, ModeText, Decimal, DateText, DateOf;
    if FileAt(archive, address, file) {
      ReadsFile(archive, address, file);
    }
    if ReadFile(archive, address) == Returns(file) {
      ReturnedFile(archive, address, file);
    }
  }

  lemma ReturnedFile(archive: seq<u8>, address: nat, file: File)
    requires address + BLOCK_SIZE <= |archive|
    requires ReadFile(archive, address) == Returns(file)
    ensures address + BLOCK_SIZE + file.header.size <= |archive|
    ensures ParseHeader(archive[address..address + BLOCK_SIZE]) == Returns(file.header)
    ensures file.data == archive[address + BLOCK_SIZE..address + BLOCK_SIZE + file.header.size]
    ensures Listable(file.header.mode, file.header.mtime)
  {
    hide ParseHeader, Listable, ModeText, Decimal, DateText, DateOf;
    var header := ParseHeader(archive[address..address + BLOCK_SIZE]);
    assert header.Returns? && header.value == file.header;
    if header.value.size == 0 {
      assert file.data == [] == archive[address + BLOCK_SIZE..address + BLOCK_SIZE + 0];
    }
  }

  lemma FileAtMeans(archive: seq<u8>, address: nat, file: File)
    ensures FileAt(archive, address, file) ==>
              && address + BLOCK_SIZE <= |archive|
              && archive[address..address + BLOCK_SIZE] != Zeros(BLOCK_SIZE)
  {
  }

  lemma FilesLieCons(archive: seq<u8>, address: nat, file: File, rest: seq<File>)
    ensures var files, next := [file] + rest, NextAddress(address, |file.data|);
            && Position(address, files, |files|) == Position(next, rest, |rest|)
            && (FilesLie(archive, address, files) <==> FileAt(archive, address, file) && FilesLie(archive, next, rest))
  {
    hide FileAt, DivCeil;
    var files, next := [file] + rest, NextAddress(address, |file.data|);
    assert files[1..] == rest;
    assert Position(address, files, 0) == address;
    assert forall k :: 0 <= k <= |rest| ==> Position(next, rest, k) == Position(address, files, k + 1);
    assert forall k :: 0 <= k < |rest| ==> rest[k] == files[k + 1];
    if FileAt(archive, address, file) && FilesLie(archive, next, rest) {
      forall k | 0 <= k < |files|
        ensures FileAt(archive, Position(address, files, k), files[k])
      {
        if k > 0 {
          assert FileAt(archive, Position(next, rest, k - 1), rest[k - 1]);
        }
      }
    }
  }

  /** A file that lies at an address is read, and the walk goes on behind it. */
  lemma WalkPast(archive: seq<u8>, address: nat, file: File)
    requires FileAt(archive, address, file)
    ensures file.header.size == |file.data|
    ensures Walk(archive, address) == Prepend([file], Walk(archive, NextAddress(address, |file.data|)))
  {
    FileAtMeans(archive, address, file);
    ReadFileIff(archive, address, file);
    hide FileAt, ReadFile, NextAddress, Zeros;
  }

  /** The walk reads the files that lie at their positions, whatever comes behind them: the
      first place with no file decides how it ends. */
  lemma {:induction false} WalkOn(archive: seq<u8>, address: nat, files: seq<File>)
    requires FilesLie(archive, address, files)
    ensures Walk(archive, address) == Prepend(files, Walk(archive, Position(address, files, |files|)))
    decreases files
  {
    hide FilesLie, FileAt, Walk, Prepend, NextAddress;
    if files == [] {
      assert Position(address, files, 0) == address;
      PrependNothing(Walk(archive, address));
    } else {
      hide Position;
      var file, rest := files[0], files[1..];
      assert files == [file] + rest;
      FilesLieCons(archive, address, file, rest);
      WalkPast(archive, address, file);
      WalkOn(archive, NextAddress(address, |file.data|), rest);
      PrependMore([file], rest, Walk(archive, Position(address, files, |files|)));
    }
  }

  lemma NoFiles(archive: seq<u8>, address: nat)
    ensures FilesLie(archive, address, []) && Position(address, [], 0) == address
  {
  }

  /** At the first place without a file lies the end, or nothing that can be read. */
  lemma {:induction false} FilesFound(archive: seq<u8>, address: nat) returns (files: seq<File>)
    ensures FilesLie(archive, address, files)
    ensures var end := Position(address, files, |files|); EndsAt(archive, end) || NothingAt(archive, end)
    decreases |archive| - address
  {
    hide FilesLie, FileAt, EndsAt, Position, NextAddress;
    if file :| FileAt(archive, address, file) {
      FileAtMeans(archive, address, file);
      NextIsBehind(address, |file.data|);
      var rest := FilesFound(archive, NextAddress(address, |file.data|));
      FilesLieCons(archive, address, file, rest);
      files := [file] + rest;
    } else {
      NoFiles(archive, address);
      files := [];
    }
  }

  lemma NextIsBehind(address: nat, size: nat)
    ensures address < NextAddress(address, size)
  {
  }

  lemma WalkEnds(archive: seq<u8>, address: nat)
    ensures EndsAt(archive, address) ==> Walk(archive, address) == Returns([])
    ensures NothingAt(archive, address) ==> Walk(archive, address) == FaultAt(archive, address)
  {
    hide ParseHeader, Zeros;
    if NothingAt(archive, address) && address + BLOCK_SIZE <= |archive| {
      NothingRead(archive, address);
    }
  }

  lemma FieldNeverStrays(block: seq<u8>, offset: nat, length: nat)
    requires offset + length <= |block|
    ensures !ParseSlice(block, offset, length).Strays?
    ensures !ParseInteger(block, offset, length).Strays?
    ensures !ParseOctal(block, offset, length).Strays?
  {
  }

  lemma HeaderNeverStrays(block: seq<u8>)
    requires |block| == BLOCK_SIZE
    ensures !ParseHeader(block).Strays?
  {
    hide ParseSlice, ParseInteger, ParseOctal;
    forall offset: nat, length: nat | offset + length <= |block|
      ensures !ParseSlice(block, offset, length).Strays?
      ensures !ParseInteger(block, offset, length).Strays?
      ensures !ParseOctal(block, offset, length).Strays?
    {
      FieldNeverStrays(block, offset, length);
    }
  }

  lemma NothingRead(archive: seq<u8>, address: nat)
    requires NothingAt(archive, address) && address + BLOCK_SIZE <= |archive|
    ensures archive[address..address + BLOCK_SIZE] != Zeros(BLOCK_SIZE)
    ensures match ReadFile(archive, address)
            case Returns(_) => false
            case Panics => FaultAt(archive, address) == Panics
            case Strays => FaultAt(archive, address) == Strays
  {
    hide FileAt, ParseHeader, Zeros, Listable, ModeText, Decimal, DateText, DateOf;
    HeaderNeverStrays(archive[address..address + BLOCK_SIZE]);
    forall file
      ensures ReadFile(archive, address) != Returns(file)
    {
      ReadFileIff(archive, address, file);
    }
  }

  /** However the walk ends: it returns the files in front of a zero block, or it ends in the
      fault of the first place where there is neither a file nor a zero block. */
  lemma WalkDecided(archive: seq<u8>, address: nat) returns (files: seq<File>)
    ensures FilesLie(archive, address, files)
    ensures var end := Position(address, files, |files|);
            || (EndsAt(archive, end) && Walk(archive, address) == Returns(files))
            || (NothingAt(archive, end) && Walk(archive, address) == FaultAt(archive, end) && !FaultAt(archive, end).Returns?)
  {
    hide FilesLie, EndsAt, NothingAt, Position, Walk, ParseHeader;
    files := FilesFound(archive, address);
    WalkOn(archive, address, files);
    WalkEnds(archive, Position(address, files, |files|));
    assert files + [] == files;
  }

  /** The walk returns exactly the files that are laid out from its start: the k-th header is
      read at 512 times the number of blocks before it, zero blocks inside data do not end the
      walk, and the first zero block in a header's place does. */
  lemma WalkIff(archive: seq<u8>, address: nat, files: seq<File>)
    ensures Walk(archive, address) == Returns(files) <==> LaidOut(archive, address, files)
  {
    hide FilesLie, EndsAt, NothingAt, Position, Walk, FaultAt;
    var found := WalkDecided(archive, address);
    if LaidOut(archive, address, files) {
      WalkOn(archive, address, files);
      WalkEnds(archive, Position(address, files, |files|));
      assert files + [] == files;
    }
  }

  // ------------------------------------------------------------------- contents

  /** Where the first file of a name is, or one past the end. */
  function FirstNamed(files: seq<File>, path: string): (i: nat)
    ensures i <= |files|
    ensures forall j :: 0 <= j < i ==> files[j].header.name != path
    ensures i < |files| ==> files[i].header.name == path
  {
    if files == [] || files[0].header.name == path then 0 else 1 + FirstNamed(files[1..], path)
  }

  lemma {:induction false} GetDataFirst(files: seq<File>, path: string)
    ensures var i := FirstNamed(files, path);
            GetData(Initrd(files), path) == if i < |files| then Returns(files[i].data) else Panics
    decreases |files|
  {
    if files == [] || files[0].header.name == path {
    } else {
      GetDataFirst(files[1..], path);
    }
  }

  lemma {:induction false} FilesOfAt(entries: seq<Entry>)
    requires AllWellFormed(entries)
    ensures |FilesOf(entries)| == |entries|
    ensures forall i :: 0 <= i < |entries| ==> FilesOf(entries)[i] == FileOf(entries[i])
  {
    hide WellFormed, FileOf;
    if entries == [] {
    } else {
      AllCons(entries);
      FilesOfAt(entries[1..]);
    }
  }

  /** End to end: whoever reads a file of the ramdisk by name gets the bytes that were put into
      the archive under that name (the first time, should the name repeat), and a name that
      was never put there panics. */
  lemma ReadBack(entries: seq<Entry>, after: seq<u8>, path: string, i: nat)
    requires AllWellFormed(entries) && AllListable(entries)
    requires i <= |entries| && forall j :: 0 <= j < i ==> entries[j].name != path
    requires i < |entries| ==> entries[i].name == path
    ensures var read := Walk(Archive(entries) + Zeros(BLOCK_SIZE) + after, 0);
            && read.Returns?
            && GetData(Initrd(read.value), path) == if i < |entries| then Returns(entries[i].data) else Panics
  {
    RoundTrip(entries, after);
    FilesOfAt(entries);
    var files := FilesOf(entries);
    GetDataFirst(files, path);
    forall j | 0 <= j < |entries|
      ensures files[j].header.name == entries[j].name && files[j].data == entries[j].data
    {
      FileOfName(entries[j]);
    }
    FirstNamedIs(files, path, i);
  }

  lemma FirstNamedIs(files: seq<File>, path: string, i: nat)
    requires i <= |files| && forall j :: 0 <= j < i ==> files[j].header.name != path
    requires i < |files| ==> files[i].header.name == path
    ensures FirstNamed(files, path) == i
  {
  }

  lemma FileOfName(e: Entry)
    requires WellFormed(e)
    ensures FileOf(e).header.name == e.name && FileOf(e).data == e.data
  {
  }

  // ----------------------------------------------------------------- permissions

  /** The nine permission bits of a mode as `rwxrwxrwx`, from the owner's read bit down. */
  function Flags(mode: nat): seq<char> {
    [Flag(mode / 256 % 2, 'r'), Flag(mode / 128 % 2, 'w'), Flag(mode / 64 % 2, 'x'),
     Flag(mode / 32 % 2, 'r'), Flag(mode / 16 % 2, 'w'), Flag(mode / 8 % 2, 'x'),
     Flag(mode / 4 % 2, 'r'), Flag(mode / 2 % 2, 'w'), Flag(mode % 2, 'x')]
  }

  lemma MisreadText(n: nat)
    requires 8 <= n
    ensures Decimal(Misread(n)) == Decimal(Misread(n / 8)) + [DigitChar(n % 8)]
  {
    hide Decimal;
    MisreadPositive(n / 8);
    DecimalSnoc(Misread(n / 8), n % 8);
  }

  lemma MisreadDigit(n: nat)
    requires n < 8
    ensures Decimal(Misread(n)) == [DigitChar(n)]
  {
  }

  /** The first three octal digits of a number that has as many. */
  function Leading(n: nat): (m: nat)
    ensures n >= 64 ==> 64 <= m < 512
  {
    if n < 512 then n else Leading(n / 8)
  }

  lemma {:induction false} LeadingText(n: nat)
    requires 64 <= n
    ensures |Decimal(Misread(n))| >= 3
    ensures Decimal(Misread(n))[..3] ==
            [DigitChar(Leading(n) / 64), DigitChar(Leading(n) / 8 % 8), DigitChar(Leading(n) % 8)]
  {
    hide Misread, Decimal;
    MisreadText(n);
    if n < 512 {
      MisreadText(n / 8);
      MisreadDigit(n / 64);
      assert n / 8 / 8 == n / 64;
    } else {
      LeadingText(n / 8);
    }
  }

  /** The listing shows the nine permission bits of the mode's first three octal digits, from the
      owner's read bit down. For a mode of three digits these are its own permissions: the detour
      through decimal is harmless. */
  lemma ListedMode(e: Entry)
    requires WellFormed(e) && 64 <= e.mode
    ensures |Decimal(FileOf(e).header.mode)| >= 3
    ensures ModeText(FileOf(e).header) == [if e.flag == 5 then 'd' else '-'] + Flags(Leading(e.mode))
    ensures e.mode < 512 ==> Leading(e.mode) == e.mode
  {
    hide Fits, Flags, Misread, Pow, Permission, Decimal;
    var m, digits := Leading(e.mode), Decimal(FileOf(e).header.mode);
    LeadingText(e.mode);
    assert digits[0] == digits[..3][0] && digits[1] == digits[..3][1] && digits[2] == digits[..3][2];
    ModeBits(m);
  }

  /** The bits of the lowest octal digit of a number are those of the digit. */
  lemma DigitBits(n: nat)
    ensures n / 4 % 2 == n % 8 / 4 % 2
    ensures n / 2 % 2 == n % 8 / 2 % 2
    ensures n % 2 == n % 8 % 2
  {
    var h, d := n / 8, n % 8;
    DivModUnique(n, 2 * h + d / 4, d % 4, 4);
    DivModUnique(n, 4 * h + d / 2, d % 2, 2);
    ModShift(n, 4 * h, 2);
    ModShift(2 * h + d / 4, h, 2);
    ModShift(4 * h + d / 2, 2 * h, 2);
  }

  lemma ModeBits(mode: nat)
    requires mode < 512
    ensures Permission(mode / 64) + Permission(mode / 8 % 8) + Permission(mode % 8) == Flags(mode)
  {
    NestedQuotients(mode);
    DigitBits(mode / 8);
    DigitBits(mode);
    PermissionFlags(mode / 64);
    PermissionFlags(mode / 8 % 8);
    PermissionFlags(mode % 8);
    hide Permission;
  }

  function Flag(bit: nat, c: char): char {
    if bit == 1 then c else '-'
  }

  lemma PermissionFlags(d: nat)
    ensures Permission(d) == [Flag(d / 4 % 2, 'r'), Flag(d / 2 % 2, 'w'), Flag(d % 2, 'x')]
  {
  }

  lemma NestedQuotients(n: nat)
    ensures n / 64 / 4 == n / 256 && n / 64 / 2 == n / 128
    ensures n / 8 / 4 == n / 32 && n / 8 / 2 == n / 16
  {
  }
}
