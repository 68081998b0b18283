/**
 * test_file_structure of test/gdir_test.cpp run on the archive of that
 * test, through eff::directory: three directories at the root and no file;
 * entering each, listing its files and leaving again; and the same listing
 * through enter_new, which leaves the handle where it was.
 */
module DirectorySamples {
  import opened Wrappers
  import opened ArchivePaths
  import opened ArchiveTree
  import opened ZipKernel
  import opened Directories
  import opened ArchiveSamples

  /** The names zip_get_name returns for the test archive. */
  const TEST_NAMES: seq<Option<string>> :=
    [Some("alpha/apple.txt"), Some("beta/banana.txt"), Some("beta/blueberry.txt"), Some("gamma/grape.txt")]

  lemma TestNamesEntries()
    ensures AllPresent(TEST_NAMES) && Entries(TEST_NAMES) == TEST_ENTRIES
  {
  }

  /** The files test_file_structure expects in each root directory. */
  function ExpectedFiles(dname: string): seq<string> {
    if dname == "alpha" then ["apple.txt"]
    else if dname == "beta" then ["banana.txt", "blueberry.txt"]
    else if dname == "gamma" then ["grape.txt"]
    else []
  }

  /** The root of the tree kernel_zip builds from TEST_NAMES lists three directories and no file. */
  lemma TestRoot(nodes: seq<Node>)
    requires Represents(nodes, Entries(TEST_NAMES))
    ensures DirKeys(nodes, 0) == ["alpha", "beta", "gamma"] && FileKeys(nodes, 0) == []
  {
    TestNamesEntries();
    TestArchive(nodes, TEST_ENTRIES);
  }

  /** Each root directory of that tree lists the files the test expects. */
  lemma TestSubdir(nodes: seq<Node>, dname: string)
    requires Represents(nodes, Entries(TEST_NAMES)) && dname in ["alpha", "beta", "gamma"]
    ensures dname in nodes[0].subdirs && FileKeys(nodes, nodes[0].subdirs[dname]) == ExpectedFiles(dname)
  {
    TestNamesEntries();
    TestArchive(nodes, TEST_ENTRIES);
    assert dname in DirKeys(nodes, 0);
  }

  /** A file name of the archive is no directory of the root. */
  lemma TestNotADirectory(nodes: seq<Node>)
    requires Represents(nodes, Entries(TEST_NAMES))
    ensures "apple.txt" !in nodes[0].subdirs
  {
    TestRoot(nodes);
    assert "apple.txt" !in DirKeys(nodes, 0);
  }

  /** A handle open at the root of the test archive's tree. */
  ghost predicate AtTestRoot(d: Directory)
    reads d, d.krefs, d.kernel, if d.kernel == null then {} else {d.kernel.zfile, d.kernel.refs, d.kernel.tree}
  {
    d.Valid() && d.IsOpen() && d.kernel.curdir == 0 && Represents(d.kernel.tree.nodes, Entries(TEST_NAMES))
  }

  /** Open the test archive, count and list the root. */
  method TestRootListing(zf: ZipArchive) returns (dirCount: nat, fileCount: nat, roots: seq<string>, first: string)
    requires zf.open && zf.owner == null
    modifies zf
    ensures dirCount == 3 && fileCount == 0 && roots == ["alpha", "beta", "gamma"] && first == ""
  {
    var d := OpenZip(zf, TEST_NAMES);
    dirCount, fileCount, roots, first := ListRoot(d);
  }

  /** directory_count, file_count, first_file and the directory listing at the root, through the handle. */
  method ListRoot(d: Directory) returns (dirCount: nat, fileCount: nat, roots: seq<string>, first: string)
    requires AtTestRoot(d)
    modifies d.kernel
    ensures dirCount == 3 && fileCount == 0 && roots == ["alpha", "beta", "gamma"] && first == ""
  {
    ghost var nodes := d.kernel.tree.nodes;
    TestRoot(nodes);
    dirCount := d.DirectoryCount();
    fileCount := d.FileCount();
    first := d.FirstFile();
    assert first == NameAt(FileKeys(nodes, 0), 0);
    roots := d.ListDirectories();
    assert roots == DirKeys(nodes, 0);
  }

  /** Open the test archive, enter one root directory, list its files and leave it again. */
  method TestEnterLeave(zf: ZipArchive, dname: string)
    returns (entered: bool, fileCount: nat, files: seq<string>, left: bool, back: bool)
    requires zf.open && zf.owner == null
    requires dname in ["alpha", "beta", "gamma"]
    modifies zf
    ensures entered && left && back
    ensures fileCount == |ExpectedFiles(dname)| && files == ExpectedFiles(dname)
  {
    var d := OpenZip(zf, TEST_NAMES);
    var k := d.kernel;
    ghost var nodes := k.tree.nodes;
    TestSubdir(nodes, dname);
    ghost var child := nodes[0].subdirs[dname];
    EnterThenLeave(nodes, 0, dname);
    entered := d.Enter(dname);
    assert k.curdir == child && k.tree.nodes == nodes;
    fileCount := d.FileCount();
    files := d.ListFiles();
    assert d.Valid() && k.curdir == child && k.tree.nodes == nodes;
    left := d.Leave();
    back := k.curdir == 0;
  }

  /**
   * enter_new on a root directory of the test archive: a good handle whose
   * files are those of the directory, while the original stays at the root.
   */
  method TestEnterNew(zf: ZipArchive, dname: string)
    returns (good: bool, fileCount: nat, files: seq<string>, stayed: bool)
    requires zf.open && zf.owner == null
    requires dname in ["alpha", "beta", "gamma"]
    modifies zf
    ensures good && stayed
    ensures fileCount == |ExpectedFiles(dname)| && files == ExpectedFiles(dname)
  {
    var d := OpenZip(zf, TEST_NAMES);
    var k := d.kernel;
    ghost var nodes := k.tree.nodes;
    TestSubdir(nodes, dname);
    var nd := d.EnterNew(dname);
    stayed := k.curdir == 0;
    good := nd.Good();
    var nk := nd.kernel;
    assert nk.tree.nodes == nodes && nk.curdir == nodes[0].subdirs[dname];
    fileCount := nd.FileCount();
    files := nd.ListFiles();
  }

  /** A name that is no directory of the root: enter_new gives a handle that is not open, enter fails. */
  method TestEnterNewMissing(zf: ZipArchive) returns (good: bool, entered: bool)
    requires zf.open && zf.owner == null
    modifies zf
    ensures !good && !entered
  {
    var d := OpenZip(zf, TEST_NAMES);
    TestNotADirectory(d.kernel.tree.nodes);
    var nd := d.EnterNew("apple.txt");
    good := nd.Good();
    entered := d.Enter("apple.txt");
  }
}
