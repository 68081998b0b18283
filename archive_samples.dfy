/**
 * The archive of test/gdir_test.cpp: three directories alpha, beta and
 * gamma, holding apple.txt; banana.txt and blueberry.txt; and grape.txt.
 * What a tree that represents such entry names lists at its root and in
 * each directory.
 */
module ArchiveSamples {
  import opened Wrappers
  import opened ArchivePaths
  import opened ArchiveTree
  import opened ZipKernel

  const TEST_ENTRIES: seq<string> := ["alpha/apple.txt", "beta/banana.txt", "beta/blueberry.txt", "gamma/grape.txt"]

  /** A name that can be one component of an entry name. */
  predicate Component(s: string) {
    s != [] && '/' !in s
  }

  /** An entry name of one directory and one file splits into those two. */
  lemma OneDirEntry(d: string, f: string)
    requires Component(d) && Component(f)
    ensures Dirs(d + "/" + f) == [d] && FileName(d + "/" + f) == Some(f)
  {
    SplitJoin([d], Some(f));
    assert Join([d], Some(f)) == d + "/" + f;
  }

  /** The directory paths four entry names list. */
  lemma ListedOfFour(entries: seq<string>, ps: seq<string>)
    requires |entries| == 4
    ensures DirListed(entries, ps) <==>
              ps <= Dirs(entries[3]) || ps <= Dirs(entries[2]) || ps <= Dirs(entries[1]) || ps <= Dirs(entries[0])
  {
    var e3 := entries[..3];
    var e2 := e3[..2];
    var e1 := e2[..1];
    assert e1[..0] == [];
    assert DirListed(e1, ps) <==> ps <= Dirs(entries[0]);
    assert DirListed(e2, ps) <==> ps <= Dirs(entries[1]) || DirListed(e1, ps);
    assert DirListed(e3, ps) <==> ps <= Dirs(entries[2]) || DirListed(e2, ps);
  }

  /** The index four entry names give the file f of directory path ps: the last entry naming it. */
  lemma IndexOfFour(entries: seq<string>, ps: seq<string>, f: string)
    requires |entries| == 4
    ensures FileIndex(entries, ps, f) ==
              if Dirs(entries[3]) == ps && FileName(entries[3]) == Some(f) then Some(3)
              else if Dirs(entries[2]) == ps && FileName(entries[2]) == Some(f) then Some(2)
              else if Dirs(entries[1]) == ps && FileName(entries[1]) == Some(f) then Some(1)
              else if Dirs(entries[0]) == ps && FileName(entries[0]) == Some(f) then Some(0)
              else None
  {
    var e3 := entries[..3];
    var e2 := e3[..2];
    var e1 := e2[..1];
    assert e1[..0] == [];
    assert e2[1] == entries[1] && e3[2] == entries[2];
    assert FileIndex(e1, ps, f) == if Dirs(entries[0]) == ps && FileName(entries[0]) == Some(f) then Some(0) else None;
    assert FileIndex(e2, ps, f) == if Dirs(entries[1]) == ps && FileName(entries[1]) == Some(f) then Some(1) else FileIndex(e1, ps, f);
    assert FileIndex(e3, ps, f) == if Dirs(entries[2]) == ps && FileName(entries[2]) == Some(f) then Some(2) else FileIndex(e2, ps, f);
  }

  /** In a tree, the one-name path [k] resolves exactly when k is a subdirectory of the root. */
  lemma ResolveOne(nodes: seq<Node>, k: string)
    requires Wf(nodes)
    ensures Resolve(nodes, 0, [k]).Some? <==> k in nodes[0].subdirs
    ensures k in nodes[0].subdirs ==> Resolve(nodes, 0, [k]) == Some(nodes[0].subdirs[k])
  {
  }

  /** The files listed in the root subdirectory k, or none when there is no such subdirectory. */
  ghost function SubdirFiles(nodes: seq<Node>, k: string): seq<string>
    requires Wf(nodes)
  {
    if k in nodes[0].subdirs then FileKeys(nodes, nodes[0].subdirs[k]) else []
  }

  /**
   * Entry names a/fa, b/fb1, b/fb2, c/fc of one directory and one file
   * each, with a < b < c and fb1 < fb2.
   */
  ghost predicate ThreeDirShape(entries: seq<string>, a: string, b: string, c: string,
                                fa: string, fb1: string, fb2: string, fc: string) {
    && Component(a) && Component(b) && Component(c)
    && Component(fa) && Component(fb1) && Component(fb2) && Component(fc)
    && Below(a, b) && Below(b, c) && Below(fb1, fb2)
    && entries == [a + "/" + fa, b + "/" + fb1, b + "/" + fb2, c + "/" + fc]
  }

  lemma ShapeParts(entries: seq<string>, a: string, b: string, c: string,
                   fa: string, fb1: string, fb2: string, fc: string)
    requires ThreeDirShape(entries, a, b, c, fa, fb1, fb2, fc)
    ensures |entries| == 4
    ensures Dirs(entries[0]) == [a] && Dirs(entries[1]) == [b] && Dirs(entries[2]) == [b] && Dirs(entries[3]) == [c]
    ensures FileName(entries[0]) == Some(fa) && FileName(entries[1]) == Some(fb1)
    ensures FileName(entries[2]) == Some(fb2) && FileName(entries[3]) == Some(fc)
    ensures a != b && b != c && a != c && fb1 != fb2 && Below(a, c)
  {
    OneDirEntry(a, fa);
    OneDirEntry(b, fb1);
    OneDirEntry(b, fb2);
    OneDirEntry(c, fc);
    BelowTransitive(a, b, c);
    BelowAsymmetric(a, b);
    BelowAsymmetric(b, c);
    BelowAsymmetric(a, c);
    BelowAsymmetric(fb1, fb2);
  }

  /** The root lists the directories a, b and c, in that order. */
  lemma ThreeDirRootDirs(nodes: seq<Node>, entries: seq<string>, a: string, b: string, c: string,
                         fa: string, fb1: string, fb2: string, fc: string)
    requires ThreeDirShape(entries, a, b, c, fa, fb1, fb2, fc) && Represents(nodes, entries)
    ensures DirKeys(nodes, 0) == [a, b, c]
  {
    ShapeParts(entries, a, b, c, fa, fb1, fb2, fc);
    forall k
      ensures k in nodes[0].subdirs <==> k in [a, b, c]
    {
      assert DirMeaning(nodes, entries, [k]);
      ListedOfFour(entries, [k]);
      ResolveOne(nodes, k);
    }
    assert Ascending([a, b, c]);
    AscendingUnique(DirKeys(nodes, 0), [a, b, c]);
  }

  /** The root holds no file. */
  lemma ThreeDirRootFiles(nodes: seq<Node>, entries: seq<string>, a: string, b: string, c: string,
                          fa: string, fb1: string, fb2: string, fc: string)
    requires ThreeDirShape(entries, a, b, c, fa, fb1, fb2, fc) && Represents(nodes, entries)
    ensures FileKeys(nodes, 0) == []
  {
    ShapeParts(entries, a, b, c, fa, fb1, fb2, fc);
    forall f
      ensures f !in nodes[0].files
    {
      assert DirMeaning(nodes, entries, []);
      IndexOfFour(entries, [], f);
    }
    EmptyTogether(FileKeys(nodes, 0), []);
  }

  /** Directory a holds fa, b holds fb1 and fb2, c holds fc. */
  lemma ThreeDirSubdirFiles(nodes: seq<Node>, entries: seq<string>, a: string, b: string, c: string,
                            fa: string, fb1: string, fb2: string, fc: string)
    requires ThreeDirShape(entries, a, b, c, fa, fb1, fb2, fc) && Represents(nodes, entries)
    ensures SubdirFiles(nodes, a) == [fa]
    ensures SubdirFiles(nodes, b) == [fb1, fb2]
    ensures SubdirFiles(nodes, c) == [fc]
  {
    ThreeDirRootDirs(nodes, entries, a, b, c, fa, fb1, fb2, fc);
    OneSubdirFiles(nodes, entries, a, b, c, fa, fb1, fb2, fc, a, [fa]);
    OneSubdirFiles(nodes, entries, a, b, c, fa, fb1, fb2, fc, b, [fb1, fb2]);
    OneSubdirFiles(nodes, entries, a, b, c, fa, fb1, fb2, fc, c, [fc]);
  }

  /** One of the three directories, d, holds the files fs. */
  lemma OneSubdirFiles(nodes: seq<Node>, entries: seq<string>, a: string, b: string, c: string,
                       fa: string, fb1: string, fb2: string, fc: string, d: string, fs: seq<string>)
    requires ThreeDirShape(entries, a, b, c, fa, fb1, fb2, fc) && Represents(nodes, entries)
    requires DirKeys(nodes, 0) == [a, b, c]
    requires (d == a && fs == [fa]) || (d == b && fs == [fb1, fb2]) || (d == c && fs == [fc])
    ensures SubdirFiles(nodes, d) == fs
  {
    ShapeParts(entries, a, b, c, fa, fb1, fb2, fc);
    assert d in DirKeys(nodes, 0);
    forall f
      ensures FileIndex(entries, [d], f).Some? <==> f in fs
    {
      IndexOfFour(entries, [d], f);
    }
    FilesOf(nodes, entries, d, fs);
  }

  /** The files of root subdirectory d are fs, when the entries name exactly those in d. */
  lemma FilesOf(nodes: seq<Node>, entries: seq<string>, d: string, fs: seq<string>)
    requires Represents(nodes, entries) && d in nodes[0].subdirs && Ascending(fs)
    requires forall f :: FileIndex(entries, [d], f).Some? <==> f in fs
    ensures FileKeys(nodes, nodes[0].subdirs[d]) == fs
  {
    ResolveOne(nodes, d);
    var child := nodes[0].subdirs[d];
    forall f
      ensures f in nodes[child].files <==> f in fs
    {
      assert DirMeaning(nodes, entries, [d]);
      assert FileAt(nodes[child].files, f) == FileIndex(entries, [d], f);
    }
    AscendingUnique(FileKeys(nodes, child), fs);
  }

  /** The entry names of the test archive have the three-directory shape. */
  lemma TestShape(entries: seq<string>)
    requires entries == TEST_ENTRIES
    ensures ThreeDirShape(entries, "alpha", "beta", "gamma", "apple.txt", "banana.txt", "blueberry.txt", "grape.txt")
  {
    assert "alpha" + "/" + "apple.txt" == TEST_ENTRIES[0];
    assert "beta" + "/" + "banana.txt" == TEST_ENTRIES[1];
    assert "beta" + "/" + "blueberry.txt" == TEST_ENTRIES[2];
    assert "gamma" + "/" + "grape.txt" == TEST_ENTRIES[3];
  }

  /** The tree of the test archive: what test_file_structure expects of it. */
  lemma TestArchive(nodes: seq<Node>, entries: seq<string>)
    requires entries == TEST_ENTRIES && Represents(nodes, entries)
    ensures DirKeys(nodes, 0) == ["alpha", "beta", "gamma"] && FileKeys(nodes, 0) == []
    ensures SubdirFiles(nodes, "alpha") == ["apple.txt"]
    ensures SubdirFiles(nodes, "beta") == ["banana.txt", "blueberry.txt"]
    ensures SubdirFiles(nodes, "gamma") == ["grape.txt"]
  {
    var a, b, c, fa, fb1, fb2, fc := "alpha", "beta", "gamma", "apple.txt", "banana.txt", "blueberry.txt", "grape.txt";
    TestShape(entries);
    ThreeDirRootDirs(nodes, entries, a, b, c, fa, fb1, fb2, fc);
    ThreeDirRootFiles(nodes, entries, a, b, c, fa, fb1, fb2, fc);
    ThreeDirSubdirFiles(nodes, entries, a, b, c, fa, fb1, fb2, fc);
  }
}
