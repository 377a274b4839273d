/**
 A reader for the listing lines of the ramdisk's files, and what it recovers from them.
 */
module Listings {
  import opened Rust
  import opened Sequences
  import opened Numerals
  import opened Calendar
  import opened Initrd

  datatype Columns = Columns(mode: string, owner: string, group: string, size: nat, date: DateTime, name: string)

  // --------------------------------------------------------------------- cuts

  datatype Cut = Cut(front: string, back: string)

  /** The text before and after the first occurrence of a character. */
  function CutAt(s: string, c: char): (r: Outcome<Cut>)
    ensures r.Returns? ==> c !in r.value.front
  {
    var i := IndexOf(s, c);
    if i < |s| then Returns(Cut(s[..i], s[i + 1..])) else Panics
  }

  lemma CutOff(front: string, c: char, back: string)
    requires c !in front
    ensures CutAt(front + [c] + back, c) == Returns(Cut(front, back))
  {
    IndexOfCut(front, back, c);
    CutSlices(front, back, c);
  }

  function ReadNumber(s: string): Outcome<nat> {
    Unwrap(FromStrRadix(s, 10, TWO_POW_32))
  }

  lemma NumberRead(n: u32)
    ensures ReadNumber(Decimal(n)) == Returns(n)
  {
    DecimalRoundTrip(n, TWO_POW_32);
  }

  // --------------------------------------------------------------------- dates

  /** A date of the form `year-month-day hour:minute:second`. */
  function ReadDate(s: string): Outcome<DateTime> {
    var year :- CutAt(s, '-');
    var month :- CutAt(year.back, '-');
    var day :- CutAt(month.back, ' ');
    var hour :- CutAt(day.back, ':');
    var minute :- CutAt(hour.back, ':');
    var y :- ReadNumber(year.front);
    var m :- ReadNumber(month.front);
    var d :- ReadNumber(day.front);
    var h :- ReadNumber(hour.front);
    var min :- ReadNumber(minute.front);
    var sec :- ReadNumber(minute.back);
    Returns(DateTime(y, m, d, h, min, sec))
  }

  lemma TwoDigitsRead(n: nat)
    requires n < 100
    ensures |TwoDigits(n)| == 2 && AllDigits(TwoDigits(n), 10)
    ensures ReadNumber(TwoDigits(n)) == Returns(n)
  {
    if n < 10 {
      ValueSnoc("", '0', 10);
      ValueSnoc("0", DigitChar(n), 10);
      assert TwoDigits(n) == "0" + [DigitChar(n)] && "" + ['0'] == "0";
    } else {
      DecimalSnoc(n / 10, n % 10);
      DecimalRoundTrip(n, TWO_POW_32);
    }
  }

  lemma DateParts(d: DateTime)
    ensures DateText(d) ==
            Decimal(d.year) + ['-'] + (TwoDigits(d.month) + ['-'] + (TwoDigits(d.day) + [' ']
            + (TwoDigits(d.hour) + [':'] + (TwoDigits(d.minute) + [':'] + TwoDigits(d.second)))))
  {
    hide Decimal, TwoDigits;
  }

  /** A date can be read back from its text, up to the last year of 32 bits. */
  lemma DateRead(d: DateTime)
    requires ValidDate(d) && d.year < TWO_POW_32
    ensures ReadDate(DateText(d)) == Returns(d)
    ensures |DateText(d)| == |Decimal(d.year)| + 15
  {
    hide Decimal, TwoDigits, ReadNumber, CutAt, DateText;
    DateParts(d);
    NumberRead(d.year);
    TwoDigitsRead(d.month);
    TwoDigitsRead(d.day);
    TwoDigitsRead(d.hour);
    TwoDigitsRead(d.minute);
    TwoDigitsRead(d.second);
    NotADigit(Decimal(d.year), '-');
    NotADigit(TwoDigits(d.month), '-');
    NotADigit(TwoDigits(d.day), ' ');
    NotADigit(TwoDigits(d.hour), ':');
    NotADigit(TwoDigits(d.minute), ':');
    var minute := TwoDigits(d.minute) + [':'] + TwoDigits(d.second);
    var hour := TwoDigits(d.hour) + [':'] + minute;
    var day := TwoDigits(d.day) + [' '] + hour;
    var month := TwoDigits(d.month) + ['-'] + day;
    CutOff(Decimal(d.year), '-', month);
    CutOff(TwoDigits(d.month), '-', day);
    CutOff(TwoDigits(d.day), ' ', hour);
    CutOff(TwoDigits(d.hour), ':', minute);
    CutOff(TwoDigits(d.minute), ':', TwoDigits(d.second));
  }

  lemma OneMoreDigit(n: nat, length: nat)
    requires 10 <= n && |Decimal(n / 10)| == length
    ensures |Decimal(n)| == length + 1
  {
  }

  lemma FourDigits(n: nat)
    requires 1000 <= n < 10000
    ensures |Decimal(n)| == 4
  {
    var tens, hundreds := n / 10, n / 10 / 10;
    assert 10 <= hundreds < 100 && 1 <= hundreds / 10 < 10;
    assert |Decimal(hundreds / 10)| == 1;
    hide Decimal;
    OneMoreDigit(hundreds, 1);
    OneMoreDigit(tens, 2);
    OneMoreDigit(n, 3);
  }

  /** The times that the ramdisk can hold end in the year 2106. */
  lemma YearOfTime(t: u32)
    ensures 1970 <= DateOf(t).year < 2107
  {
    var d := DateOf(t);
    DateInItsYear(d);
    YearStartMonotonic(1970, 2107);
    StartedBefore(t, d.year, 2107);
  }

  // --------------------------------------------------------------------- lines

  function ReadColumns(line: string): Outcome<Columns> {
    if |line| < 11 then Panics
    else
      var owner :- CutAt(line[11..], '/');
      var group :- CutAt(owner.back, ' ');
      var size :- CutAt(group.back, ' ');
      var number :- ReadNumber(size.front);
      if |size.back| < 20 then Panics
      else
        var date :- ReadDate(size.back[..19]);
        Returns(Columns(line[..10], owner.front, group.front, number, date, size.back[20..]))
  }

  function ColumnsOf(file: File): Columns
    requires |Decimal(file.header.mode)| >= 3
  {
    var h := file.header;
    Columns(ModeText(h), h.username, h.group, h.size, DateOf(h.mtime), h.name)
  }

  lemma ListingParts(file: File)
    requires Listing(file).Returns?
    ensures var h := file.header;
            && |Decimal(h.mode)| >= 3 && |ModeText(h)| == 10
            && Listing(file).value ==
               ModeText(h) + [' '] + (h.username + ['/'] + (h.group + [' '] + (Decimal(h.size) + [' ']
               + (DateText(DateOf(h.mtime)) + [' '] + h.name))))
  {
    hide Decimal, DateText, DateOf, Datable;
    var h := file.header;
    var mode, date, size := ModeText(h), DateText(DateOf(h.mtime)), Decimal(h.size);
    assert mode + " " + h.username + "/" + h.group + " " + size + " " + date + " " + h.name ==
           mode + [' '] + (h.username + ['/'] + (h.group + [' '] + (size + [' '] + (date + [' '] + h.name))));
  }

  lemma ReadsColumns(file: File, mode: string, date: string)
    requires var h := file.header; '/' !in h.username && ' ' !in h.group
    requires |mode| == 10 && |date| == 19 && ReadDate(date).Returns?
    ensures var h := file.header;
            ReadColumns(mode + [' '] + (h.username + ['/'] + (h.group + [' '] + (Decimal(h.size) + [' ']
                        + (date + [' '] + h.name)))))
            == Returns(Columns(mode, h.username, h.group, h.size, ReadDate(date).value, h.name))
  {
    hide Decimal, ReadDate, CutAt, ReadNumber;
    var h := file.header;
    var last := date + [' '] + h.name;
    var third := Decimal(h.size) + [' '] + last;
    var second := h.group + [' '] + third;
    var first := h.username + ['/'] + second;
    CutSlices(mode, first, ' ');
    CutOff(h.username, '/', second);
    CutOff(h.group, ' ', third);
    NotADigit(Decimal(h.size), ' ');
    CutOff(Decimal(h.size), ' ', last);
    NumberRead(h.size);
    CutSlices(date, h.name, ' ');
  }

  lemma ReadParts(line: string)
    ensures ReadColumns(line).Returns? ==>
              '/' !in ReadColumns(line).value.owner && ' ' !in ReadColumns(line).value.group
  {
    hide CutAt, ReadDate, ReadNumber;
  }

  /** Every column of a listing can be recovered from the line, unless the owner's name has a
      slash in it or the group's a blank: those are misread. */
  lemma ListingRead(file: File)
    requires Listing(file).Returns?
    ensures |Decimal(file.header.mode)| >= 3
    ensures ReadColumns(Listing(file).value) == Returns(ColumnsOf(file)) <==>
            '/' !in file.header.username && ' ' !in file.header.group
  {
    hide Decimal, DateText, DateOf, Datable, Listing, ReadDate, ReadColumns, ModeText;
    ListingParts(file);
    ReadParts(Listing(file).value);
    YearOfTime(file.header.mtime);
    DateRead(DateOf(file.header.mtime));
    FourDigits(DateOf(file.header.mtime).year);
    if '/' !in file.header.username && ' ' !in file.header.group {
      ReadsColumns(file, ModeText(file.header), DateText(DateOf(file.header.mtime)));
    }
  }
}
