/**
 * What the walk of find_jpgs.py:15-44 promises, proved of its specification
 * `Walker.WalkDir` / `Walker.Scan` (which `Walker.IterImageFiles` computes).
 */
module WalkProperties {
  import opened Wrappers
  import opened Extension
  import opened Walker

  // ---------------------------------------------------------------------
  // One directory's files

  /**
   * A directory's file records are exactly its matching files whose size
   * could be read, each with its looked-up size and the directory's path.
   */
  lemma {:induction false} FileRecordsMembers(dirpath: string, files: seq<FileEntry>, exts: set<string>, r: Record)
    ensures r in FileRecords(dirpath, files, exts) <==>
              r.directory == dirpath && Matches(r.filename, exts) && FileEntry(r.filename, Some(r.size)) in files
  {
    if files != [] {
      FileRecordsMembers(dirpath, files[1..], exts, r);
      assert files == [files[0]] + files[1..];
    }
  }

  /**
   * A file whose size lookup fails is skipped alone: the records are those
   * of the files before it followed by those of the files after it.
   */
  lemma SizeFailureSkipsOnlyThatFile(dirpath: string, files: seq<FileEntry>, k: nat, exts: set<string>)
    requires k < |files| && files[k].size.None?
    ensures FileRecords(dirpath, files, exts) ==
              FileRecords(dirpath, files[..k], exts) + FileRecords(dirpath, files[k + 1..], exts)
  {
    var upto, after := files[..k + 1], files[k + 1..];
    var front, skipped := FileRecords(dirpath, files[..k], exts), FileRecord(dirpath, files[k], exts);
    assert FileRecords(dirpath, files, exts) == FileRecords(dirpath, upto, exts) + FileRecords(dirpath, after, exts) by {
      assert files == upto + after;
      FileRecordsAppend(dirpath, upto, after, exts);
    }
    assert FileRecords(dirpath, upto, exts) == front by {
      FileRecordsSnoc(dirpath, files, k, exts);
      assert skipped == [];
    }
  }

  // ---------------------------------------------------------------------
  // Link pruning

  /** Pruning keeps exactly the non-link subdirectories. */
  lemma {:induction false} PrunedMembers(subdirs: seq<SubDir>, s: SubDir)
    ensures s in Pruned(subdirs) <==> s in subdirs && !s.isLink
  {
    if subdirs != [] {
      PrunedMembers(subdirs[1..], s);
      assert subdirs == [subdirs[0]] + subdirs[1..];
    }
  }

  /** Pruning keeps listing order: it distributes over concatenation, dropping exactly the links. */
  lemma PrunedKeepsOrder(a: seq<SubDir>, s: SubDir, b: seq<SubDir>)
    ensures Pruned(a + [s] + b) == Pruned(a) + (if s.isLink then [] else [s]) + Pruned(b)
  {
    var mid := if s.isLink then [] else [s];
    assert Pruned([s]) == mid by {
      assert [s][1..] == [];
    }
    assert Pruned(a + [s]) == Pruned(a) + mid by {
      PrunedAppend(a, [s]);
    }
    PrunedAppend(a + [s], b);
  }

  lemma {:induction false} LinkTargetIgnoredFrom(dirpath: string, d: Dir, i: nat, other: Dir, j: nat, exts: set<string>)
    requires i < |d.subdirs| && d.subdirs[i].isLink && j <= |d.subdirs|
    ensures WalkKids(dirpath, d.(subdirs := d.subdirs[i := d.subdirs[i].(target := other)]), j, exts) ==
              WalkKids(dirpath, d, j, exts)
    decreases |d.subdirs| - j
  {
    if j < |d.subdirs| {
      LinkTargetIgnoredFrom(dirpath, d, i, other, j + 1, exts);
    }
  }

  /**
   * A link subdirectory is never descended into: whatever tree it points
   * to, the walk emits the same records.
   */
  lemma LinkTargetIgnored(dirpath: string, d: Dir, i: nat, other: Dir, exts: set<string>)
    requires i < |d.subdirs| && d.subdirs[i].isLink
    ensures WalkDir(dirpath, d.(subdirs := d.subdirs[i := d.subdirs[i].(target := other)]), exts) ==
              WalkDir(dirpath, d, exts)
  {
    LinkTargetIgnoredFrom(dirpath, d, i, other, 0, exts);
  }

  // ---------------------------------------------------------------------
  // Soundness and completeness

  /**
   * The directory reached from `d` (known as `dirpath`) by following the
   * subdirectory indices in `route`, each step through a listed directory
   * and a non-link entry; None when the route is blocked.
   */
  function Descend(dirpath: string, d: Dir, route: seq<nat>): Option<(string, Dir)>
    decreases route
  {
    if route == [] then Some((dirpath, d))
    else if !d.readable || route[0] >= |d.subdirs| || d.subdirs[route[0]].isLink then None
    else Descend(Join(dirpath, d.subdirs[route[0]].name), d.subdirs[route[0]].target, route[1..])
  }

  /** `rec` describes a file with a readable size in a listed directory along `route`. */
  predicate Describes(dirpath: string, d: Dir, route: seq<nat>, rec: Record) {
    var found := Descend(dirpath, d, route);
    found.Some? && found.value.0 == rec.directory && found.value.1.readable
    && FileEntry(rec.filename, Some(rec.size)) in found.value.1.files
  }

  lemma DescendStep(dirpath: string, d: Dir, i: nat, route: seq<nat>)
    requires d.readable && i < |d.subdirs| && !d.subdirs[i].isLink
    ensures Descend(dirpath, d, [i] + route) ==
              Descend(Join(dirpath, d.subdirs[i].name), d.subdirs[i].target, route)
  {
    assert ([i] + route)[0] == i && ([i] + route)[1..] == route;
  }

  lemma {:induction false} WalkDirSound(dirpath: string, d: Dir, exts: set<string>, rec: Record)
    requires rec in WalkDir(dirpath, d, exts)
    ensures Matches(rec.filename, exts)
    ensures exists route :: Describes(dirpath, d, route, rec)
    decreases d, |d.subdirs| + 1
  {
    if rec in FileRecords(dirpath, d.files, exts) {
      FileRecordsMembers(dirpath, d.files, exts, rec);
      assert Describes(dirpath, d, [], rec);
    } else {
      WalkKidsSound(dirpath, d, 0, exts, rec);
    }
  }

  lemma {:induction false} WalkKidsSound(dirpath: string, d: Dir, i: nat, exts: set<string>, rec: Record)
    requires d.readable && i <= |d.subdirs|
    requires rec in WalkKids(dirpath, d, i, exts)
    ensures Matches(rec.filename, exts)
    ensures exists route :: Describes(dirpath, d, route, rec)
    decreases d, |d.subdirs| - i
  {
    var s := d.subdirs[i];
    if !s.isLink && rec in WalkDir(Join(dirpath, s.name), s.target, exts) {
      WalkDirSound(Join(dirpath, s.name), s.target, exts, rec);
      var route :| Describes(Join(dirpath, s.name), s.target, route, rec);
      DescendStep(dirpath, d, i, route);
      assert Describes(dirpath, d, [i] + route, rec);
    } else {
      WalkKidsSound(dirpath, d, i + 1, exts, rec);
    }
  }

  lemma {:induction false} WalkKidsContains(dirpath: string, d: Dir, j: nat, i: nat, exts: set<string>, rec: Record)
    requires j <= i < |d.subdirs| && !d.subdirs[i].isLink
    requires rec in WalkDir(Join(dirpath, d.subdirs[i].name), d.subdirs[i].target, exts)
    ensures rec in WalkKids(dirpath, d, j, exts)
    decreases i - j
  {
    var s := d.subdirs[j];
    var here := if s.isLink then [] else WalkDir(Join(dirpath, s.name), s.target, exts);
    assert WalkKids(dirpath, d, j, exts) == here + WalkKids(dirpath, d, j + 1, exts);
    if j < i {
      WalkKidsContains(dirpath, d, j + 1, i, exts, rec);
    } else {
      assert rec in here;
    }
  }

  lemma {:induction false} WalkDirComplete(dirpath: string, d: Dir, route: seq<nat>, exts: set<string>, rec: Record)
    requires Describes(dirpath, d, route, rec) && Matches(rec.filename, exts)
    ensures rec in WalkDir(dirpath, d, exts)
    decreases route
  {
    if route == [] {
      FileRecordsMembers(dirpath, d.files, exts, rec);
    } else {
      var i := route[0];
      var s := d.subdirs[i];
      DescendStep(dirpath, d, i, route[1..]);
      assert route == [i] + route[1..];
      WalkDirComplete(Join(dirpath, s.name), s.target, route[1..], exts, rec);
      WalkKidsContains(dirpath, d, 0, i, exts, rec);
    }
  }

  /**
   * Soundness and completeness of one root's walk: a record is emitted
   * exactly when its name matches and it describes a file with a readable
   * size in a listed directory reachable without passing through a link.
   */
  lemma WalkDirMembers(dirpath: string, d: Dir, exts: set<string>, rec: Record)
    ensures rec in WalkDir(dirpath, d, exts) <==>
              Matches(rec.filename, exts) && exists route :: Describes(dirpath, d, route, rec)
  {
    if rec in WalkDir(dirpath, d, exts) {
      WalkDirSound(dirpath, d, exts, rec);
    }
    if Matches(rec.filename, exts) && exists route :: Describes(dirpath, d, route, rec) {
      var route :| Describes(dirpath, d, route, rec);
      WalkDirComplete(dirpath, d, route, exts, rec);
    }
  }

  /** The same over all roots: a record comes from one of the given roots. */
  lemma {:induction false} ScanMembers(fs: Filesystem, roots: seq<string>, exts: set<string>, rec: Record)
    ensures rec in Scan(fs, roots, exts) <==>
              exists k :: 0 <= k < |roots| && rec in WalkDir(roots[k], Lookup(fs, roots[k]), exts)
  {
    if roots != [] {
      ScanMembers(fs, roots[1..], exts, rec);
      if rec in Scan(fs, roots[1..], exts) {
        var k :| 0 <= k < |roots[1..]| && rec in WalkDir(roots[1..][k], Lookup(fs, roots[1..][k]), exts);
        assert roots[k + 1] == roots[1..][k];
      }
      if exists k :: 0 <= k < |roots| && rec in WalkDir(roots[k], Lookup(fs, roots[k]), exts) {
        var k :| 0 <= k < |roots| && rec in WalkDir(roots[k], Lookup(fs, roots[k]), exts);
        if k > 0 {
          assert roots[1..][k - 1] == roots[k];
        }
      }
    }
  }

  /**
   * Every emitted name has a non-empty extension, preceded by something
   * other than dots, whose lowercase form is in the set: names without an
   * extension, or that are only a leading dot and a suffix, are never emitted.
   */
  lemma ScanEmitsOnlyExtensions(fs: Filesystem, roots: seq<string>, exts: set<string>, rec: Record)
    requires rec in Scan(fs, roots, exts)
    requires forall e :: e in exts ==> e != ""
    ensures Lower(SplitExt(rec.filename).1) in exts
    ensures SplitExt(rec.filename).1 != "" && HasNonDot(SplitExt(rec.filename).0)
  {
    ScanMembers(fs, roots, exts, rec);
    var k :| 0 <= k < |roots| && rec in WalkDir(roots[k], Lookup(fs, roots[k]), exts);
    WalkDirSound(roots[k], Lookup(fs, roots[k]), exts, rec);
  }

  // ---------------------------------------------------------------------
  // Errors are contained

  /**
   * A subdirectory whose listing fails contributes nothing, and its
   * siblings before and after it are still walked completely.
   */
  lemma UnreadableSubdirContained(dirpath: string, d: Dir, i: nat, exts: set<string>)
    requires d.readable && i < |d.subdirs| && !d.subdirs[i].target.readable
    ensures WalkDir(dirpath, d, exts) ==
              FileRecords(dirpath, d.files, exts)
              + (Forest(Children(dirpath, Pruned(d.subdirs[..i])), exts)
                 + Forest(Children(dirpath, Pruned(d.subdirs[i + 1..])), exts))
  {
    var s := d.subdirs[i];
    var before, after := Pruned(d.subdirs[..i]), Pruned(d.subdirs[i + 1..]);
    var mid := if s.isLink then [] else [s];
    assert Pruned(d.subdirs) == before + mid + after by {
      assert d.subdirs == d.subdirs[..i] + [s] + d.subdirs[i + 1..];
      PrunedKeepsOrder(d.subdirs[..i], s, d.subdirs[i + 1..]);
    }
    assert Forest(Children(dirpath, mid), exts) == [] by {
      if !s.isLink {
        var cm := Children(dirpath, mid);
        assert cm == [(Join(dirpath, s.name), s.target)] by {
          assert mid[1..] == [];
        }
        assert cm[1..] == [];
      }
    }
    ForestSkipsEmpty(dirpath, before, mid, after, exts);
    TopDown(dirpath, d, exts);
  }

  lemma ForestSkipsEmpty(dirpath: string, before: seq<SubDir>, mid: seq<SubDir>, after: seq<SubDir>, exts: set<string>)
    requires Forest(Children(dirpath, mid), exts) == []
    ensures Forest(Children(dirpath, before + mid + after), exts) ==
              Forest(Children(dirpath, before), exts) + Forest(Children(dirpath, after), exts)
  {
    var cb, cm, ca := Children(dirpath, before), Children(dirpath, mid), Children(dirpath, after);
    var cbm := Children(dirpath, before + mid);
    assert Children(dirpath, before + mid + after) == cbm + ca by {
      ChildrenAppend(dirpath, before + mid, after);
    }
    assert cbm == cb + cm by {
      ChildrenAppend(dirpath, before, mid);
    }
    assert Forest(cbm + ca, exts) == Forest(cbm, exts) + Forest(ca, exts) by {
      ForestAppend(cbm, ca, exts);
    }
    assert Forest(cbm, exts) == Forest(cb, exts) by {
      ForestAppend(cb, cm, exts);
    }
  }

  /**
   * A root that does not exist or cannot be listed contributes nothing, and
   * every root before and after it is still scanned completely.
   */
  lemma UnreadableRootContained(fs: Filesystem, roots: seq<string>, k: nat, exts: set<string>)
    requires k < |roots| && !Lookup(fs, roots[k]).readable
    ensures Scan(fs, roots, exts) == Scan(fs, roots[..k], exts) + Scan(fs, roots[k + 1..], exts)
  {
    assert roots == roots[..k] + ([roots[k]] + roots[k + 1..]);
    ScanAppend(fs, roots[..k], [roots[k]] + roots[k + 1..], exts);
    assert ([roots[k]] + roots[k + 1..])[1..] == roots[k + 1..];
  }

  // ---------------------------------------------------------------------
  // The end-to-end scenario: C:\root holds a.jpg (10 bytes) and sub\, and a
  // link to sub\; sub\ holds b.jpeg (20 bytes) and c.png (5 bytes).

  const Sub: Dir := Dir(true, [], [FileEntry("b.jpeg", Some(20)), FileEntry("c.png", Some(5))])
  const Top: Dir := Dir(true, [SubDir("sub", false, Sub), SubDir("link", true, Sub)], [FileEntry("a.jpg", Some(10))])

  /** The two image names of the scenario pass the filter with both extensions active. */
  lemma ExampleImagesMatch()
    ensures Matches("a.jpg", ExtensionSet(true)) && Matches("b.jpeg", ExtensionSet(true))
  {
    assert Matches("a.jpg", ExtensionSet(true)) by {
      LowerExtensionIs("a.jpg", ".jpg");
      assert "a.jpg"[..1][0] != '.' && "a.jpg"[1..] == ".jpg";
    }
    assert Matches("b.jpeg", ExtensionSet(true)) by {
      LowerExtensionIs("b.jpeg", ".jpeg");
      assert "b.jpeg"[..1][0] != '.' && "b.jpeg"[1..] == ".jpeg";
    }
  }

  lemma ExamplePng()
    ensures !Matches("c.png", ExtensionSet(true))
  {
    var name := "c.png";
    assert !HasSuffixIgnoringCase(name, ".jpg") by {
      assert Lower(name[1..])[1] == 'p';
    }
    assert !HasSuffixIgnoringCase(name, ".jpeg") by {
      assert Lower(name[0..])[0] == 'c';
    }
    MatchesIff(name, true);
  }

  lemma SingleFile(dirpath: string, f: FileEntry, exts: set<string>)
    ensures FileRecords(dirpath, [f], exts) == FileRecord(dirpath, f, exts)
  {
    assert [f][1..] == [];
  }

  lemma ExampleTopFiles(exts: set<string>)
    requires exts == ExtensionSet(true)
    ensures FileRecords("C:\\root", Top.files, exts) == [Record("C:\\root", "a.jpg", 10)]
  {
    var a := FileEntry("a.jpg", Some(10));
    assert Top.files == [a];
    SingleFile("C:\\root", a, exts);
    assert FileRecord("C:\\root", a, exts) == [Record("C:\\root", "a.jpg", 10)] by {
      ExampleImagesMatch();
    }
  }

  lemma ExampleSubFiles(exts: set<string>)
    requires exts == ExtensionSet(true)
    ensures WalkDir("C:\\root\\sub", Sub, exts) == [Record("C:\\root\\sub", "b.jpeg", 20)]
  {
    var b, c := FileEntry("b.jpeg", Some(20)), FileEntry("c.png", Some(5));
    var dir := "C:\\root\\sub";
    assert FileRecords(dir, [c], exts) == [] by {
      assert FileRecord(dir, c, exts) == [] by {
        ExamplePng();
      }
      assert [c][1..] == [];
    }
    assert FileRecords(dir, [b, c], exts) == [Record(dir, "b.jpeg", 20)] by {
      assert FileRecord(dir, b, exts) == [Record(dir, "b.jpeg", 20)] by {
        ExampleImagesMatch();
      }
      assert [b, c][1..] == [c];
    }
    assert Sub.files == [b, c];
    assert WalkKids(dir, Sub, 0, exts) == [];
  }

  lemma ExampleTopKids(exts: set<string>)
    requires exts == ExtensionSet(true)
    ensures WalkKids("C:\\root", Top, 0, exts) == [Record("C:\\root\\sub", "b.jpeg", 20)]
  {
    assert Join("C:\\root", "sub") == "C:\\root\\sub";
    ExampleSubFiles(exts);
    assert WalkKids("C:\\root", Top, 2, exts) == [];
    assert WalkKids("C:\\root", Top, 1, exts) == [];
  }

  /**
   * With both extensions active the scan emits exactly (C:\root, a.jpg, 10)
   * and (C:\root\sub, b.jpeg, 20): c.png is filtered out by extension and
   * nothing is reached through the link.
   */
  lemma ExampleScan()
    ensures Scan(map["C:\\root" := Top], ["C:\\root"], ExtensionSet(true)) ==
              [Record("C:\\root", "a.jpg", 10), Record("C:\\root\\sub", "b.jpeg", 20)]
  {
    var root := "C:\\root";
    var fs := map[root := Top];
    ExampleRootWalk(ExtensionSet(true));
    assert Lookup(fs, root) == Top;
    assert [root][1..] == [];
  }

  lemma ExampleRootWalk(exts: set<string>)
    requires exts == ExtensionSet(true)
    ensures WalkDir("C:\\root", Top, exts) == [Record("C:\\root", "a.jpg", 10), Record("C:\\root\\sub", "b.jpeg", 20)]
  {
    ExampleTopFiles(exts);
    ExampleTopKids(exts);
  }
}
