/**
 * `iter_image_files` (find_jpgs.py:15-44): a top-down walk of each root
 * that prunes the subdirectories `os.path.islink` reports (symbolic links;
 * it does not report junctions, so those are descended into), skips directories whose
 * listing fails and files whose size cannot be read, and emits one
 * (directory, filename, size) record per matching file.
 *
 * The filesystem is data: a directory either could not be listed, or lists
 * its subdirectories and files in the order the OS returned them.
 */
module Walker {
  import opened Wrappers
  import opened Extension

  /** A non-directory entry; `size` is None when `os.path.getsize` raises. */
  datatype FileEntry = FileEntry(name: string, size: Option<nat>)

  /** A directory; `readable` is false when listing it fails (os.walk's `onerror`). */
  datatype Dir = Dir(readable: bool, subdirs: seq<SubDir>, files: seq<FileEntry>)

  /**
   * A subdirectory entry; `isLink` is what `os.path.islink` says of it: true
   * for a symbolic link, false for a real directory and for a junction.
   */
  datatype SubDir = SubDir(name: string, isLink: bool, target: Dir)

  /** The yielded tuple (dirpath, name, size). */
  datatype Record = Record(directory: string, filename: string, size: nat)

  /** The trees at the root paths; a path that is not a key does not exist. */
  type Filesystem = map<string, Dir>

  /** A root that does not exist fails to list, like an unreadable directory. */
  function Lookup(fs: Filesystem, root: string): (d: Dir)
    ensures root !in fs ==> !d.readable
  {
    if root in fs then fs[root] else Dir(false, [], [])
  }

  predicate IsSep(c: char) {
    c == '\\' || c == '/'
  }

  /**
   * Windows `os.path.join(dir, name)` for a name a listing returned: a
   * backslash goes in between unless `dir` is empty, already ends in a
   * separator, or is a bare drive such as "C:".
   */
  function Join(dir: string, name: string): (path: string)
    ensures path == dir + name || path == dir + "\\" + name
  {
    if dir == [] || IsSep(dir[|dir| - 1]) || (|dir| == 2 && dir[1] == ':') then dir + name
    else dir + "\\" + name
  }

  // ---------------------------------------------------------------------
  // The specification of the walk

  /** The record one file yields: none unless it matches and its size is known. */
  function FileRecord(dirpath: string, f: FileEntry, exts: set<string>): seq<Record> {
    if Matches(f.name, exts) && f.size.Some? then [Record(dirpath, f.name, f.size.value)] else []
  }

  /** The records of one directory's files, in listing order (find_jpgs.py:35-44). */
  function FileRecords(dirpath: string, files: seq<FileEntry>, exts: set<string>): (rs: seq<Record>)
    ensures |rs| <= |files|
  {
    if files == [] then [] else FileRecord(dirpath, files[0], exts) + FileRecords(dirpath, files[1..], exts)
  }

  /** The subdirectories left after dropping links (find_jpgs.py:27-33). */
  function Pruned(subdirs: seq<SubDir>): (kept: seq<SubDir>)
    ensures |kept| <= |subdirs|
  {
    if subdirs == [] then []
    else (if subdirs[0].isLink then [] else [subdirs[0]]) + Pruned(subdirs[1..])
  }

  /**
   * Everything the walk of `d` (reached as `dirpath`) emits: nothing if it
   * cannot be listed, else its own files, then each non-link subdirectory
   * in listing order.
   */
  function WalkDir(dirpath: string, d: Dir, exts: set<string>): seq<Record>
    decreases d, |d.subdirs| + 1
  {
    if !d.readable then [] else FileRecords(dirpath, d.files, exts) + WalkKids(dirpath, d, 0, exts)
  }

  /** The walks of the subdirectories of `d` from index `i` on, links skipped. */
  function WalkKids(dirpath: string, d: Dir, i: nat, exts: set<string>): seq<Record>
    requires i <= |d.subdirs|
    decreases d, |d.subdirs| - i
  {
    if i == |d.subdirs| then []
    else
      var s := d.subdirs[i];
      (if s.isLink then [] else WalkDir(Join(dirpath, s.name), s.target, exts))
        + WalkKids(dirpath, d, i + 1, exts)
  }

  /** Pending directories, each with the path it is reached by. */
  function Forest(items: seq<(string, Dir)>, exts: set<string>): seq<Record> {
    if items == [] then [] else WalkDir(items[0].0, items[0].1, exts) + Forest(items[1..], exts)
  }

  /** The kept subdirectories with their joined paths. */
  function Children(dirpath: string, kept: seq<SubDir>): (items: seq<(string, Dir)>)
    ensures |items| == |kept|
  {
    if kept == [] then [] else [(Join(dirpath, kept[0].name), kept[0].target)] + Children(dirpath, kept[1..])
  }

  /** The whole scan: each root in the given order (find_jpgs.py:24-25). */
  function Scan(fs: Filesystem, roots: seq<string>, exts: set<string>): seq<Record> {
    if roots == [] then [] else WalkDir(roots[0], Lookup(fs, roots[0]), exts) + Scan(fs, roots[1..], exts)
  }

  // Number of directories in a tree: the walk's termination measure.

  function Size(d: Dir): (n: nat)
    ensures n >= 1
    decreases d, |d.subdirs| + 1
  {
    1 + SizeKids(d, 0)
  }

  function SizeKids(d: Dir, i: nat): nat
    requires i <= |d.subdirs|
    decreases d, |d.subdirs| - i
  {
    if i == |d.subdirs| then 0 else Size(d.subdirs[i].target) + SizeKids(d, i + 1)
  }

  function ForestSize(items: seq<(string, Dir)>): nat {
    if items == [] then 0 else Size(items[0].1) + ForestSize(items[1..])
  }

  // ---------------------------------------------------------------------
  // Concatenation laws

  lemma {:induction false} FileRecordsAppend(dirpath: string, a: seq<FileEntry>, b: seq<FileEntry>, exts: set<string>)
    ensures FileRecords(dirpath, a + b, exts) == FileRecords(dirpath, a, exts) + FileRecords(dirpath, b, exts)
  {
    if a != [] {
      assert (a + b)[1..] == a[1..] + b;
      FileRecordsAppend(dirpath, a[1..], b, exts);
    } else {
      assert a + b == b;
    }
  }

  lemma {:induction false} PrunedAppend(a: seq<SubDir>, b: seq<SubDir>)
    ensures Pruned(a + b) == Pruned(a) + Pruned(b)
  {
    if a != [] {
      assert (a + b)[1..] == a[1..] + b;
      PrunedAppend(a[1..], b);
    } else {
      assert a + b == b;
    }
  }

  lemma {:induction false} ChildrenAppend(dirpath: string, a: seq<SubDir>, b: seq<SubDir>)
    ensures Children(dirpath, a + b) == Children(dirpath, a) + Children(dirpath, b)
  {
    if a != [] {
      assert (a + b)[1..] == a[1..] + b;
      ChildrenAppend(dirpath, a[1..], b);
    } else {
      assert a + b == b;
    }
  }

  lemma {:induction false} ForestAppend(a: seq<(string, Dir)>, b: seq<(string, Dir)>, exts: set<string>)
    ensures Forest(a + b, exts) == Forest(a, exts) + Forest(b, exts)
  {
    if a != [] {
      assert (a + b)[1..] == a[1..] + b;
      ForestAppend(a[1..], b, exts);
    } else {
      assert a + b == b;
    }
  }

  lemma {:induction false} ForestSizeAppend(a: seq<(string, Dir)>, b: seq<(string, Dir)>)
    ensures ForestSize(a + b) == ForestSize(a) + ForestSize(b)
  {
    if a != [] {
      assert (a + b)[1..] == a[1..] + b;
      ForestSizeAppend(a[1..], b);
    } else {
      assert a + b == b;
    }
  }

  /** Records come root by root, in the order the roots are given. */
  lemma {:induction false} ScanAppend(fs: Filesystem, a: seq<string>, b: seq<string>, exts: set<string>)
    ensures Scan(fs, a + b, exts) == Scan(fs, a, exts) + Scan(fs, b, exts)
  {
    if a != [] {
      assert (a + b)[1..] == a[1..] + b;
      ScanAppend(fs, a[1..], b, exts);
    } else {
      assert a + b == b;
    }
  }

  // ---------------------------------------------------------------------
  // Top-down order

  lemma {:induction false} KidsAsForest(dirpath: string, d: Dir, i: nat, exts: set<string>)
    requires i <= |d.subdirs|
    ensures WalkKids(dirpath, d, i, exts) == Forest(Children(dirpath, Pruned(d.subdirs[i..])), exts)
    decreases |d.subdirs| - i
  {
    if i < |d.subdirs| {
      var s := d.subdirs[i];
      assert d.subdirs[i..] == [s] + d.subdirs[i + 1..];
      PrunedAppend([s], d.subdirs[i + 1..]);
      ChildrenAppend(dirpath, Pruned([s]), Pruned(d.subdirs[i + 1..]));
      ForestAppend(Children(dirpath, Pruned([s])), Children(dirpath, Pruned(d.subdirs[i + 1..])), exts);
      KidsAsForest(dirpath, d, i + 1, exts);
    }
  }

  /**
   * A listed directory emits its own matching files first, in listing order,
   * and then the complete walk of each non-link subdirectory, in listing order.
   */
  lemma TopDown(dirpath: string, d: Dir, exts: set<string>)
    requires d.readable
    ensures WalkDir(dirpath, d, exts) ==
              FileRecords(dirpath, d.files, exts) + Forest(Children(dirpath, Pruned(d.subdirs)), exts)
  {
    KidsAsForest(dirpath, d, 0, exts);
    assert d.subdirs[0..] == d.subdirs;
  }

  lemma {:induction false} ChildrenSmaller(dirpath: string, d: Dir, i: nat)
    requires i <= |d.subdirs|
    ensures ForestSize(Children(dirpath, Pruned(d.subdirs[i..]))) <= SizeKids(d, i)
    decreases |d.subdirs| - i
  {
    if i < |d.subdirs| {
      var s := d.subdirs[i];
      assert d.subdirs[i..] == [s] + d.subdirs[i + 1..];
      PrunedAppend([s], d.subdirs[i + 1..]);
      ChildrenAppend(dirpath, Pruned([s]), Pruned(d.subdirs[i + 1..]));
      ForestSizeAppend(Children(dirpath, Pruned([s])), Children(dirpath, Pruned(d.subdirs[i + 1..])));
      ChildrenSmaller(dirpath, d, i + 1);
    }
  }

  lemma FileRecordsSnoc(dirpath: string, files: seq<FileEntry>, k: nat, exts: set<string>)
    requires k < |files|
    ensures FileRecords(dirpath, files[..k + 1], exts) ==
              FileRecords(dirpath, files[..k], exts) + FileRecord(dirpath, files[k], exts)
  {
    assert files[..k + 1] == files[..k] + [files[k]];
    FileRecordsAppend(dirpath, files[..k], [files[k]], exts);
    assert [files[k]][1..] == [];
  }

  lemma PrunedSnoc(subdirs: seq<SubDir>, k: nat)
    requires k < |subdirs|
    ensures Pruned(subdirs[..k + 1]) == Pruned(subdirs[..k]) + (if subdirs[k].isLink then [] else [subdirs[k]])
  {
    assert subdirs[..k + 1] == subdirs[..k] + [subdirs[k]];
    PrunedAppend(subdirs[..k], [subdirs[k]]);
    assert [subdirs[k]][1..] == [];
  }

  /** One step of the explicit-stack walk: popping a listed directory and pushing its kept children. */
  lemma WalkStep(dirpath: string, d: Dir, rest: seq<(string, Dir)>, exts: set<string>)
    requires d.readable
    ensures Forest([(dirpath, d)] + rest, exts) ==
              FileRecords(dirpath, d.files, exts) + Forest(Children(dirpath, Pruned(d.subdirs)) + rest, exts)
  {
    var children := Children(dirpath, Pruned(d.subdirs));
    var own, below, later := FileRecords(dirpath, d.files, exts), Forest(children, exts), Forest(rest, exts);
    assert Forest([(dirpath, d)] + rest, exts) == WalkDir(dirpath, d, exts) + later by {
      var stack := [(dirpath, d)] + rest;
      assert stack[0] == (dirpath, d) && stack[1..] == rest;
    }
    assert WalkDir(dirpath, d, exts) == own + below by {
      TopDown(dirpath, d, exts);
    }
    assert Forest(children + rest, exts) == below + later by {
      ForestAppend(children, rest, exts);
    }
    assert (own + below) + later == own + (below + later);
  }

  /** The same step shrinks the number of directories still to visit. */
  lemma WalkStepShrinks(dirpath: string, d: Dir, rest: seq<(string, Dir)>)
    ensures ForestSize(Children(dirpath, Pruned(d.subdirs)) + rest) < ForestSize([(dirpath, d)] + rest)
  {
    var stack := [(dirpath, d)] + rest;
    assert stack[0] == (dirpath, d) && stack[1..] == rest;
    ChildrenSmaller(dirpath, d, 0);
    assert d.subdirs[0..] == d.subdirs;
    ForestSizeAppend(Children(dirpath, Pruned(d.subdirs)), rest);
  }

  // ---------------------------------------------------------------------
  // The walk as the source performs it

  /** The pruning loop of find_jpgs.py:27-33. */
  method PruneLinks(subdirs: seq<SubDir>) returns (pruned: seq<SubDir>)
    ensures pruned == Pruned(subdirs)
  {
    pruned := [];
    for k := 0 to |subdirs|
      invariant pruned == Pruned(subdirs[..k])
    {
      PrunedSnoc(subdirs, k);
      if subdirs[k].isLink {
        continue;
      }
      pruned := pruned + [subdirs[k]];
    }
    assert subdirs[..|subdirs|] == subdirs;
  }

  /** The file loop of find_jpgs.py:35-44. */
  method MatchingFiles(dirpath: string, files: seq<FileEntry>, exts: set<string>) returns (found: seq<Record>)
    ensures found == FileRecords(dirpath, files, exts)
  {
    found := [];
    for k := 0 to |files|
      invariant found == FileRecords(dirpath, files[..k], exts)
    {
      FileRecordsSnoc(dirpath, files, k, exts);
      var name := files[k].name;
      var ext := Lower(SplitExt(name).1);
      if ext !in exts {
        continue;
      }
      match files[k].size {
        case None =>
          continue;
        case Some(size) =>
          found := found + [Record(dirpath, name, size)];
      }
    }
    assert files[..|files|] == files;
  }

  /**
   * `os.walk(top, topdown=True, onerror=...)` with the loop body of
   * find_jpgs.py:26-44, run with an explicit stack of pending directories
   * (its top at index 0).
   */
  method WalkTree(top: string, tree: Dir, exts: set<string>) returns (out: seq<Record>)
    ensures out == WalkDir(top, tree, exts)
  {
    out := [];
    var stack := [(top, tree)];
    while stack != []
      invariant out + Forest(stack, exts) == WalkDir(top, tree, exts)
      decreases ForestSize(stack)
    {
      var dirpath, d := stack[0].0, stack[0].1;
      var rest := stack[1..];
      assert stack == [(dirpath, d)] + rest;
      stack := rest;
      if !d.readable {
        // onerror: the listing failed, so nothing is yielded for this directory
        continue;
      }
      var pruned := PruneLinks(d.subdirs);
      var found := MatchingFiles(dirpath, d.files, exts);
      WalkStep(dirpath, d, rest, exts);
      WalkStepShrinks(dirpath, d, rest);
      var children := Children(dirpath, pruned);
      assert (out + found) + Forest(children + rest, exts) == out + (found + Forest(children + rest, exts));
      out := out + found;
      stack := children + stack;
    }
  }

  /** `iter_image_files(roots, include_jpeg)`, collecting what it yields. */
  method IterImageFiles(fs: Filesystem, roots: seq<string>, includeJpeg: bool) returns (records: seq<Record>)
    ensures records == Scan(fs, roots, ExtensionSet(includeJpeg))
  {
    var extensions := {".jpg"};
    if includeJpeg {
      extensions := extensions + {".jpeg"};
    }
    records := [];
    for r := 0 to |roots|
      invariant records == Scan(fs, roots[..r], extensions)
    {
      var walked := WalkTree(roots[r], Lookup(fs, roots[r]), extensions);
      ScanAppend(fs, roots[..r], [roots[r]], extensions);
      assert roots[..r + 1] == roots[..r] + [roots[r]];
      records := records + walked;
    }
    assert roots[..|roots|] == roots;
  }
}
