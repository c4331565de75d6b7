/**
 * The rules `main` applies (find_jpgs.py:68-81): which roots to scan, which
 * extensions to accept, and the text written to the inventory file.
 */
module Inventory {
  import opened Wrappers
  import opened Extension
  import opened Walker
  import Drives
  import WalkProperties

  /** The first line of every inventory file. */
  const Header: string := "directory\tfilename\tsize_bytes\n"

  predicate IsDigit(c: char) {
    '0' <= c <= '9'
  }

  predicate AllDigits(s: string) {
    forall i :: 0 <= i < |s| ==> IsDigit(s[i])
  }

  function DigitChar(d: nat): (c: char)
    requires d < 10
    ensures IsDigit(c)
  {
    ('0' as int + d) as char
  }

  /** `f"{n}"`: the decimal digits of n, without leading zeros. */
  function Decimal(n: nat): (s: string)
    ensures |s| >= 1 && AllDigits(s)
    ensures |s| > 1 ==> s[0] != '0'
  {
    if n < 10 then [DigitChar(n)] else Decimal(n / 10) + [DigitChar(n % 10)]
  }

  /** The number a string of decimal digits denotes. */
  function DigitsValue(s: string): nat
    requires AllDigits(s)
  {
    if s == [] then 0 else 10 * DigitsValue(s[..|s| - 1]) + (s[|s| - 1] as int - '0' as int)
  }

  /** Reading the printed size back gives the size. */
  lemma {:induction false} DecimalRoundTrip(n: nat)
    ensures DigitsValue(Decimal(n)) == n
  {
    if n >= 10 {
      DecimalRoundTrip(n / 10);
      var s := Decimal(n);
      assert s[..|s| - 1] == Decimal(n / 10);
    }
  }

  /** One record's line (find_jpgs.py:77). */
  function Line(r: Record): string {
    r.directory + "\t" + r.filename + "\t" + Decimal(r.size) + "\n"
  }

  /** The lines of the records, in emission order. */
  function Body(rs: seq<Record>): string {
    if rs == [] then [] else Line(rs[0]) + Body(rs[1..])
  }

  /** The whole file: the header, then one line per record (find_jpgs.py:75-77). */
  function InventoryText(rs: seq<Record>): string {
    Header + Body(rs)
  }

  lemma {:induction false} BodyAppend(a: seq<Record>, b: seq<Record>)
    ensures Body(a + b) == Body(a) + Body(b)
  {
    if a != [] {
      assert (a + b)[1..] == a[1..] + b;
      BodyAppend(a[1..], b);
    } else {
      assert a + b == b;
    }
  }

  lemma BodySnoc(rs: seq<Record>, k: nat)
    requires k < |rs|
    ensures Body(rs[..k + 1]) == Body(rs[..k]) + Line(rs[k])
  {
    assert rs[..k + 1] == rs[..k] + [rs[k]];
    BodyAppend(rs[..k], [rs[k]]);
    assert [rs[k]][1..] == [];
  }

  // ---------------------------------------------------------------------
  // Reading an inventory back

  /** Position of the first `c` in `s`. */
  function IndexOf(s: string, c: char): (r: Option<nat>)
    ensures r.Some? ==> r.value < |s| && s[r.value] == c && c !in s[..r.value]
    ensures r.None? ==> c !in s
  {
    if s == [] then None
    else if s[0] == c then Some(0)
    else match IndexOf(s[1..], c)
      case None => None
      case Some(i) =>
        assert s[..i + 1] == [s[0]] + s[1..][..i];
        Some(i + 1)
  }

  /** One line without its newline: directory, tab, filename, tab, decimal size. */
  function ParseLine(line: string): Option<Record> {
    match IndexOf(line, '\t')
    case None => None
    case Some(i) =>
      var rest := line[i + 1..];
      match IndexOf(rest, '\t')
      case None => None
      case Some(j) =>
        var size := rest[j + 1..];
        if size != [] && AllDigits(size) then Some(Record(line[..i], rest[..j], DigitsValue(size))) else None
  }

  function ParseBody(text: string): Option<seq<Record>>
    decreases |text|
  {
    if text == [] then Some([])
    else match IndexOf(text, '\n')
      case None => None
      case Some(i) =>
        match ParseLine(text[..i])
        case None => None
        case Some(r) =>
          match ParseBody(text[i + 1..])
          case None => None
          case Some(rs) => Some([r] + rs)
  }

  function ParseInventory(text: string): Option<seq<Record>> {
    if |Header| <= |text| && text[..|Header|] == Header then ParseBody(text[|Header|..]) else None
  }

  /** A column value that holds neither a tab nor a newline. */
  predicate PlainField(s: string) {
    '\t' !in s && '\n' !in s
  }

  predicate PlainRecord(r: Record) {
    PlainField(r.directory) && PlainField(r.filename)
  }

  lemma IndexOfSplit(a: string, c: char, b: string)
    requires c !in a
    ensures IndexOf(a + [c] + b, c) == Some(|a|)
    ensures (a + [c] + b)[..|a|] == a && (a + [c] + b)[|a| + 1..] == b
  {
    var s := a + [c] + b;
    assert s[|a|] == c;
    assert s[..|a|] == a;
  }

  lemma DigitsArePlain(s: string)
    requires AllDigits(s)
    ensures PlainField(s)
  {
  }

  /** The two tab splits of a line, given the pieces around the tabs. */
  lemma SplitAtTabs(dir: string, name: string, digits: string)
    requires PlainField(dir) && PlainField(name)
    ensures var line := dir + "\t" + name + "\t" + digits;
            IndexOf(line, '\t') == Some(|dir|) && line[..|dir|] == dir &&
            line[|dir| + 1..] == name + "\t" + digits
    ensures IndexOf(name + "\t" + digits, '\t') == Some(|name|)
    ensures (name + "\t" + digits)[..|name|] == name && (name + "\t" + digits)[|name| + 1..] == digits
  {
    var rest := name + "\t" + digits;
    assert dir + "\t" + name + "\t" + digits == dir + ['\t'] + rest;
    assert rest == name + ['\t'] + digits;
    IndexOfSplit(dir, '\t', rest);
    IndexOfSplit(name, '\t', digits);
  }

  lemma ParseLineRoundTrip(r: Record)
    requires PlainRecord(r)
    ensures ParseLine(r.directory + "\t" + r.filename + "\t" + Decimal(r.size)) == Some(r)
  {
    var digits := Decimal(r.size);
    SplitAtTabs(r.directory, r.filename, digits);
    DecimalRoundTrip(r.size);
  }

  lemma LineSplit(r: Record)
    requires PlainRecord(r)
    ensures Line(r) == (r.directory + "\t" + r.filename + "\t" + Decimal(r.size)) + ['\n']
    ensures '\n' !in r.directory + "\t" + r.filename + "\t" + Decimal(r.size)
  {
    var digits := Decimal(r.size);
    DigitsArePlain(digits);
  }

  lemma {:induction false} ParseBodyRoundTrip(rs: seq<Record>)
    requires forall r :: r in rs ==> PlainRecord(r)
    ensures ParseBody(Body(rs)) == Some(rs)
  {
    if rs != [] {
      var r := rs[0];
      var text := r.directory + "\t" + r.filename + "\t" + Decimal(r.size);
      LineSplit(r);
      assert Body(rs) == text + ['\n'] + Body(rs[1..]);
      IndexOfSplit(text, '\n', Body(rs[1..]));
      ParseLineRoundTrip(r);
      ParseBodyRoundTrip(rs[1..]);
      assert [r] + rs[1..] == rs;
    }
  }

  /**
   * The file is the header followed by exactly one line per record, in
   * emission order: reading it back gives the records, provided no
   * directory or file name holds a tab or a newline.
   */
  lemma InventoryRoundTrip(rs: seq<Record>)
    requires forall r :: r in rs ==> PlainRecord(r)
    ensures ParseInventory(InventoryText(rs)) == Some(rs)
  {
    var text := InventoryText(rs);
    assert text[..|Header|] == Header && text[|Header|..] == Body(rs);
    ParseBodyRoundTrip(rs);
  }

  // ---------------------------------------------------------------------
  // main

  /** `args.roots if args.roots else list(get_logical_drives())`. */
  function ChooseRoots(rootsArg: Option<seq<string>>, driveMask: nat): seq<string> {
    if rootsArg.Some? && rootsArg.value != [] then rootsArg.value else Drives.Drives(driveMask)
  }

  /** The line printed to standard output at the end (find_jpgs.py:80). */
  function Summary(count: nat, output: string): string {
    "Wrote " + Decimal(count) + " records to " + output
  }

  /**
   * The writing loop of find_jpgs.py:75-78: the header, then one line per
   * record, counting the records as they are written.
   */
  method WriteInventory(records: seq<Record>) returns (contents: string, count: nat)
    ensures contents == InventoryText(records)
    ensures count == |records|
  {
    count := 0;
    contents := Header;
    for k := 0 to |records|
      invariant contents == Header + Body(records[..k])
      invariant count == k
    {
      BodySnoc(records, k);
      contents := contents + Line(records[k]);
      count := count + 1;
    }
    assert records[..|records|] == records;
  }

  /**
   * `main` after argument parsing: `rootsArg` is `--roots` (None when
   * absent), `jpgOnly` is `--jpg-only`, `output` is `--output`, `driveMask`
   * what `GetLogicalDrives` would return and `fs` the filesystem. Returns
   * the file's contents, the record count, the summary line and the exit
   * status.
   */
  method Run(rootsArg: Option<seq<string>>, jpgOnly: bool, output: string, driveMask: nat, fs: Filesystem)
    returns (contents: string, count: nat, summary: string, status: int)
    ensures var records := Scan(fs, ChooseRoots(rootsArg, driveMask), ExtensionSet(!jpgOnly));
            contents == InventoryText(records) && count == |records|
    ensures summary == Summary(count, output)
    ensures status == 0
  {
    var roots: seq<string>;
    if rootsArg.Some? && rootsArg.value != [] {
      roots := rootsArg.value;
    } else {
      roots := Drives.GetLogicalDrives(driveMask);
    }
    var records := IterImageFiles(fs, roots, !jpgOnly);
    contents, count := WriteInventory(records);
    summary := Summary(count, output);
    status := 0;
  }

  /**
   * What `--jpg-only` decides: every inventoried name ends in ".jpg" (any
   * case) after a non-dot, or, only without the flag, in ".jpeg".
   */
  lemma InventoriedNames(fs: Filesystem, roots: seq<string>, jpgOnly: bool, rec: Record)
    requires rec in Scan(fs, roots, ExtensionSet(!jpgOnly))
    ensures HasSuffixIgnoringCase(rec.filename, ".jpg") || (!jpgOnly && HasSuffixIgnoringCase(rec.filename, ".jpeg"))
  {
    var exts := ExtensionSet(!jpgOnly);
    WalkProperties.ScanMembers(fs, roots, exts, rec);
    var k :| 0 <= k < |roots| && rec in WalkDir(roots[k], Lookup(fs, roots[k]), exts);
    WalkProperties.WalkDirSound(roots[k], Lookup(fs, roots[k]), exts, rec);
    MatchesIff(rec.filename, !jpgOnly);
  }

  /**
   * With no roots given, the roots are exactly the drive enumeration: each
   * drive whose bit is set, nothing else, in ascending letter order.
   */
  lemma DefaultRootsAreDrives(rootsArg: Option<seq<string>>, driveMask: nat)
    requires rootsArg.None? || rootsArg.value == []
    ensures ChooseRoots(rootsArg, driveMask) == Drives.Drives(driveMask)
    ensures forall i :: 0 <= i < Drives.Letters ==>
              (Drives.DriveRoot(i) in ChooseRoots(rootsArg, driveMask) <==> Drives.BitSet(driveMask, i))
    ensures forall r :: r in ChooseRoots(rootsArg, driveMask) ==>
              exists i :: 0 <= i < Drives.Letters && Drives.BitSet(driveMask, i) && r == Drives.DriveRoot(i)
    ensures var roots := ChooseRoots(rootsArg, driveMask);
            forall j, k :: 0 <= j < k < |roots| ==> roots[j][0] < roots[k][0]
  {
    Drives.DrivesSpec(driveMask);
  }
}
