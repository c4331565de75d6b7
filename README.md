# find_jpgs — a verified model of the JPEG inventory scanner

`find_jpgs.py` scans folders or every drive for `.jpg` (and, unless
`--jpg-only` is given, `.jpeg`) files and writes a tab-separated inventory
`directory<TAB>filename<TAB>size_bytes`. This project models its three parts
in Dafny and proves what each of them promises:

- `drives.dfy`, module `Drives`: `get_logical_drives`. It turns the
  `GetLogicalDrives` bitmask (a parameter here) into the roots `"A:\"`,
  `"B:\"`, ... It has a loop method and the specification function the loop
  is proved against.
- `extension.dfy`, module `Extension`: the extension test. It covers
  `os.path.splitext` (last dot, leading dots ignored), ASCII `.lower()` and
  the extension set built from `include_jpeg`.
- `walker.dfy`, module `Walker`: `iter_image_files`. The filesystem is data.
  A directory either failed to list (`onerror`) or lists its subdirectories
  (each flagged with what `os.path.islink` says) and its files (each with the
  size `os.path.getsize` returns, or none when it raises). `WalkDir`/`Scan`
  specify the records. `WalkTree` is the top-down `os.walk` with an explicit
  stack. `PruneLinks` and `MatchingFiles` are the loop bodies.
  `IterImageFiles` loops over the roots. Each method is proved equal to its
  specification function.
- `walk_properties.dfy`, module `WalkProperties`: what the walk promises,
  proved of the specification:
  - soundness and completeness;
  - links are never followed;
  - listing and size errors are contained;
  - emission order;
  - a worked scenario.
- `inventory.dfy`, module `Inventory`: `main` after argument parsing. It
  covers root choice, the extension set from `--jpg-only`, the file text, the
  record count, the summary line and the exit status. A parser for the file
  proves that the text holds exactly one line per record, in order.
- `wrappers.dfy`: the `Option` type.

Paths follow Windows `os.path.join` for a plain listed name. A backslash
goes between the parts unless the directory is empty, already ends in `\`
or `/`, or is a bare drive such as `C:`.

## Model

| member | source | states |
|---|---|---|
| Drives.GetLogicalDrives | find_jpgs.py:8-12 | the loop over bits 0..25 yields exactly `Drives(mask)` |
| Drives.DrivesSpec | find_jpgs.py:9-12 | `chr(65+i)+":\"` is yielded iff bit i (i < 26) is set; every yielded string is such a root; roots come in strictly ascending letter order |
| Drives.BitSetIsArithmetic | find_jpgs.py:11 | the bit test used by the model is `(mask / 2^i) % 2 == 1`, i.e. `mask & (1 << i) != 0` |
| Drives.HighBitsIgnored | find_jpgs.py:10-11 | masks that agree on bits 0..25 yield the same roots: bits 26 and above are ignored |
| Drives.NoDrivesForZeroMask | find_jpgs.py:9-12 | a zero mask yields no roots |
| Drives.SingleBitMask | find_jpgs.py:10-12 | a mask `1 << k` yields only drive k when k < 26, and nothing when k >= 26 |
| Drives.DriveRoot | find_jpgs.py:12 | a root is three characters: an upper-case letter followed by `:\` |
| Extension.LastDot | find_jpgs.py:36 | finds the position of the last `.` in the name, or reports that there is none |
| Extension.SplitExt | find_jpgs.py:36 | stem + extension is the name; a non-empty extension starts at a dot, holds no other dot, and something other than dots precedes it |
| Extension.ExtensionIs | find_jpgs.py:36 | `splitext(name)[1] == e` iff the name ends with `e` and a non-dot character precedes it (both directions) |
| Extension.Lower | find_jpgs.py:37 | lowercasing keeps the length and maps each character through ASCII lowercasing |
| Extension.ExtensionOfLower | find_jpgs.py:36-37 | taking the extension and lowercasing commute |
| Extension.ExtensionSet | find_jpgs.py:16-18 | the set always holds ".jpg", holds ".jpeg" iff `include_jpeg`, and holds only lower-case extensions |
| Extension.LowerExtensionIs | find_jpgs.py:36-37 | the lowered extension is `e` iff the name ends with `e` in any ASCII case after a non-dot |
| Extension.MatchesIff | find_jpgs.py:16-18 | the filter accepts a name iff it ends in ".jpg", or (only with `include_jpeg`) ".jpeg", case-insensitively and after a non-dot |
| Extension.UpperCaseJpgMatches | find_jpgs.py:36-37 | "PHOTO.JPG" passes the filter whichever set is active |
| Extension.JpegMatchesOnlyWhenIncluded | find_jpgs.py:16-18 | "b.jpeg" passes the filter iff `include_jpeg` |
| Extension.DotFileNeverMatches | find_jpgs.py:36-37 | ".jpg" (a leading dot only) has no extension and never passes |
| Walker.Lookup | find_jpgs.py:24-25 | a root that does not exist is walked as a directory whose listing fails |
| Walker.Join | find_jpgs.py:29 | a joined path is the directory followed by the name, with or without one backslash between them |
| Walker.PruneLinks | find_jpgs.py:27-33 | the pruning loop keeps exactly `Pruned(dirnames)`: the non-link subdirectories in listing order |
| Walker.MatchingFiles | find_jpgs.py:35-44 | the file loop yields exactly `FileRecords`: one record per matching file whose size could be read, in listing order |
| Walker.WalkTree | find_jpgs.py:25-44 | the explicit-stack top-down walk of one root yields exactly `WalkDir(root)` |
| Walker.IterImageFiles | find_jpgs.py:15-44 | the generator's output, collected, is `Scan(fs, roots, ExtensionSet(include_jpeg))` |
| Walker.TopDown | find_jpgs.py:25-44 | a listed directory emits its own records first, then the full walk of each kept subdirectory in listing order |
| Walker.ScanAppend | find_jpgs.py:24-25 | scanning `a + b` emits the records of roots `a`, then those of roots `b` |
| Walker.WalkStep | find_jpgs.py:25-44 | popping a listed directory and pushing its kept children leaves the stack's total output unchanged |
| Walker.WalkStepShrinks | find_jpgs.py:25 | that step strictly decreases the number of directories left to visit (the walk terminates) |
| Walker.FileRecordsAppend | find_jpgs.py:35 | a directory's file records over `a + b` are those of `a` followed by those of `b` |
| Walker.PrunedAppend | find_jpgs.py:28-32 | pruning distributes over concatenation of listings |
| Walker.ForestAppend | find_jpgs.py:25 | the walk of pending directories `a + b` is that of `a` followed by that of `b` |
| WalkProperties.FileRecordsMembers | find_jpgs.py:35-44 | a record comes from a directory's files iff it carries that directory, a matching name, and a size equal to that file's looked-up size |
| WalkProperties.SizeFailureSkipsOnlyThatFile | find_jpgs.py:39-44 | a file whose size lookup fails is skipped alone; the records of the other files are unaffected |
| WalkProperties.PrunedMembers | find_jpgs.py:27-33 | a subdirectory is kept iff it is listed and is not a link |
| WalkProperties.PrunedKeepsOrder | find_jpgs.py:27-33 | pruning keeps the non-links in their listing order and drops exactly the links |
| WalkProperties.LinkTargetIgnored | find_jpgs.py:26-33 | replacing what a link points to never changes the records: nothing is reached through a link |
| WalkProperties.WalkDirSound | find_jpgs.py:25-44 | every emitted record matches and describes a readable-size file in a listed directory reachable without passing a link |
| WalkProperties.WalkDirComplete | find_jpgs.py:25-44 | every such file with a matching name is emitted |
| WalkProperties.WalkDirMembers | find_jpgs.py:25-44 | a record is emitted iff its name matches and such a file exists (both directions) |
| WalkProperties.ScanMembers | find_jpgs.py:24-25 | a record is in the scan iff it is in the walk of one of the roots |
| WalkProperties.ScanEmitsOnlyExtensions | find_jpgs.py:35-38 | every emitted name has a non-empty extension after a non-dot, whose lowercase form is in the set |
| WalkProperties.UnreadableSubdirContained | find_jpgs.py:20-25 | a subdirectory whose listing fails contributes nothing; the siblings before and after it are walked in full |
| WalkProperties.UnreadableRootContained | find_jpgs.py:20-25 | a root whose listing fails, or that does not exist, contributes nothing; the other roots are scanned in full |
| WalkProperties.ExampleScan | find_jpgs.py:15-44 | with `C:\root` holding a.jpg, sub\ and a link to sub\, and sub\ holding b.jpeg and c.png, the scan emits (C:\root, a.jpg, 10) then (C:\root\sub, b.jpeg, 20) |
| Inventory.Decimal | find_jpgs.py:77 | the size's text is a non-empty string of digits without a leading zero |
| Inventory.DecimalRoundTrip | find_jpgs.py:77 | reading the size's digits back gives the size |
| Inventory.WriteInventory | find_jpgs.py:73-78 | the writing loop produces the header plus one line per record, and counts the records |
| Inventory.Run | find_jpgs.py:68-81 | the file holds the inventory of `Scan(ChooseRoots(...), ExtensionSet(not jpg_only))`; count is the number of records; the summary line reports them; the status is 0 |
| Inventory.InventoryRoundTrip | find_jpgs.py:75-77 | parsing the file gives back exactly the records in emission order, when no directory or file name holds a tab or a newline |
| Inventory.ParseLineRoundTrip | find_jpgs.py:77 | one line parses back to its record |
| Inventory.InventoriedNames | find_jpgs.py:71 | every inventoried name ends in ".jpg" in any case, or, only without `--jpg-only`, in ".jpeg" |
| Inventory.DefaultRootsAreDrives | find_jpgs.py:70 | with `--roots` absent or empty, the roots are `list(get_logical_drives())`: each drive whose bit is set, nothing else, in ascending letter order |

## Left out

- The `GetLogicalDrives` foreign call: the bitmask is a `nat` parameter. The model does not represent the return type's signedness.
- Real filesystem access (`os.walk`, `os.scandir`, `os.path.islink`, `os.path.getsize`). The tree is data, with listing failure, link-ness and size availability as fields. `islink` does not report junctions, so the source descends into them although its comment at find_jpgs.py:26 says it avoids them; a junction is a SubDir with `isLink` false, and junction cycles are not representable.
- Changes to the filesystem during the walk, and link cycles: a tree value cannot change or contain a cycle. `LinkTargetIgnored` shows that a link's target never matters.
- Walker.Join: models `os.path.join` only for a plain name a listing returned, on Windows. The POSIX path module is not modelled.
- Extension.SplitExt: takes the name to hold no path separator, as names from a listing do. `splitext`'s handling of separators is not modelled.
- Extension.Lower: ASCII lowercasing only. Unicode case mapping in `str.lower()` is not modelled.
- Argument parsing (`parse_args`, find_jpgs.py:47-65): its results are the parameters of `Inventory.Run`.
- Opening and writing the output file, `print` and `SystemExit`: `Run` returns the file's text, the summary line and the status. A failure to open the output file is not modelled.
- Generator laziness: the records are a finite sequence, written after they are collected. The text written is the same.
- Inventory.InventoryRoundTrip: holds only for names without tabs or newlines. With such names the source writes lines that cannot be split back, and the model does not claim otherwise.
- Encoding the text as UTF-8 bytes: the model stops at a string of characters. A directory or file name holding a lone surrogate (possible in Windows UTF-16 names and in POSIX names decoded with surrogateescape) makes `f.write` at find_jpgs.py:77 raise UnicodeEncodeError, so `main` stops with a traceback, a truncated file and a non-zero status.
- Inventory.Run: its text and `status == 0` hold only for names that are valid Unicode, because Dafny strings cannot hold a lone surrogate; the encoding failure above is not modelled.
