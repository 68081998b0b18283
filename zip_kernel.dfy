/**
 * directory_zip::kernel_zip (src/gdir.cpp:268-343): a cursor over the
 * parsed_directory tree of one zip archive. Kernels entered from one
 * another share the archive handle, the tree and a heap reference count;
 * the last one destroyed closes the archive and frees the tree and the
 * count. The archive itself is reduced to its list of entry names.
 */
module ZipKernel {
  import opened Wrappers
  import opened ArchivePaths
  import opened ArchiveTree

  /**
   * A heap `size_t` used as a shared reference count (`new size_t(1)`).
   * The ghost holders are the objects the count stands for, each once per
   * reference it holds.
   */
  class Counter {
    var count: nat
    /** False once `delete` has run on the counter. */
    var live: bool
    ghost var holders: multiset<object>
    /** Whether this counts directory handles (krefs) rather than kernels (refs). */
    ghost const ofHandles: bool

    constructor (ghost ofHandles: bool)
      ensures count == 1 && live && holders == multiset{} && this.ofHandles == ofHandles
    {
      count := 1;
      live := true;
      holders := multiset{};
      this.ofHandles := ofHandles;
    }

    /** The counter is allocated, counts h, and counts exactly its holders. */
    ghost predicate Counts(h: object)
      reads this
    {
      live && h in holders && count == |holders|
    }
  }

  /** The libzip archive handle; zip_close closes it. */
  class ZipArchive {
    var open: bool
    /** The reference count whose last release closes the archive, once one owns it. */
    ghost var owner: object?

    constructor ()
      ensures open && owner == null
    {
      open := true;
      owner := null;
    }
  }

  /**
   * A std::map iterator: Singular for a value-initialised one, or the
   * position pos in the key order of one node's map (pos == size is end()).
   */
  datatype Cursor = Singular | At(node: nat, pos: nat)

  /** What next_file / next_directory return at position pos of the keys: the key there, or "" at end(). */
  function NameAt(keys: seq<string>, pos: nat): string {
    if pos < |keys| then keys[pos] else []
  }

  /** The position after next_* at pos: one further, or end() again. */
  function StepFrom(keys: seq<string>, pos: nat): nat {
    if pos < |keys| then pos + 1 else pos
  }

  /**
   * The state of a listing loop: names are the first keys, and name, the
   * value last returned, is the next key or "" once all are listed.
   */
  ghost predicate ListedSoFar(keys: seq<string>, names: seq<string>, name: string) {
    && |names| <= |keys| && names == keys[..|names|]
    && name == NameAt(keys, |names|) && (|name| == 0 <==> |names| == |keys|)
  }

  /** One round of a listing loop: the name just returned joins the list, and the next key follows. */
  lemma ListedStep(keys: seq<string>, names: seq<string>, name: string)
    requires ListedSoFar(keys, names, name) && |name| > 0
    requires forall i :: 0 <= i < |keys| ==> |keys[i]| > 0
    ensures ListedSoFar(keys, names + [name], NameAt(keys, |names| + 1))
    ensures StepFrom(keys, |names|) == |names + [name]|
  {
    assert keys[..|names| + 1] == keys[..|names|] + [keys[|names|]];
  }

  /** The file names of node d in std::map order. */
  function FileKeys(nodes: seq<Node>, d: nat): seq<string>
    requires d < |nodes|
  {
    SortedKeys(nodes[d].files.Keys)
  }

  /** The subdirectory names of node d in std::map order. */
  function DirKeys(nodes: seq<Node>, d: nat): seq<string>
    requires d < |nodes|
  {
    SortedKeys(nodes[d].subdirs.Keys)
  }

  /** Every entry name is present (zip_get_name did not return NULL). */
  predicate AllPresent(names: seq<Option<string>>) {
    forall i :: 0 <= i < |names| ==> names[i].Some?
  }

  /** The entry names of an archive whose names are all present. */
  function Entries(names: seq<Option<string>>): (r: seq<string>)
    requires AllPresent(names)
    ensures |r| == |names| && forall i :: 0 <= i < |names| ==> names[i] == Some(r[i])
  {
    seq(|names|, i requires 0 <= i < |names| => names[i].value)
  }

  lemma EntriesSnoc(names: seq<Option<string>>, i: nat)
    requires AllPresent(names) && i < |names|
    ensures Entries(names)[..i] + [names[i].value] == Entries(names)[..i + 1]
  {
  }

  /** No stored name is "": the end of a listing cannot be mistaken for a name. */
  lemma NoEmptyKeys(nodes: seq<Node>, d: nat)
    requires Wf(nodes) && d < |nodes|
    ensures forall i :: 0 <= i < |FileKeys(nodes, d)| ==> |FileKeys(nodes, d)[i]| > 0
    ensures forall i :: 0 <= i < |DirKeys(nodes, d)| ==> |DirKeys(nodes, d)[i]| > 0
  {
    var fs, ds := FileKeys(nodes, d), DirKeys(nodes, d);
    forall i | 0 <= i < |fs|
      ensures |fs[i]| > 0
    {
      assert fs[i] in fs;
    }
    forall i | 0 <= i < |ds|
      ensures |ds[i]| > 0
    {
      assert ds[i] in ds;
      assert EdgeOk(nodes, d, ds[i]);
    }
  }

  /**
   * Entering a subdirectory and leaving it returns to the node entered
   * from; the child is never the root.
   */
  lemma EnterThenLeave(nodes: seq<Node>, d: nat, name: string)
    requires Wf(nodes) && d < |nodes| && name in nodes[d].subdirs
    ensures nodes[d].subdirs[name] != 0
    ensures nodes[nodes[d].subdirs[name]].parent == Some(d)
  {
    assert EdgeOk(nodes, d, name);
  }

  /** Only the root has no parent. */
  lemma RootOnlyOrphan(nodes: seq<Node>, d: nat)
    requires Wf(nodes) && d < |nodes|
    ensures nodes[d].parent.None? <==> d == 0
    ensures nodes[d].parent.Some? ==> nodes[d].parent.value < d
  {
  }

  class KernelZip {
    const zfile: ZipArchive
    const refs: Counter
    const tree: ParsedTree
    /** The node the cursor is in (a parsed_directory pointer). */
    var curdir: nat
    var fileAt: Cursor
    var dirAt: Cursor
    /** The reference counter of the directory handle wrapping this kernel, once wrapped. */
    ghost var wrappedBy: object?

    /**
     * The archive is open, the tree alive and well formed, this kernel is
     * counted, and the archive and the tree belong to its count.
     */
    ghost predicate Valid()
      reads this, zfile, refs, tree
    {
      && zfile.open && tree.live && refs.Counts(this) && !refs.ofHandles
      && zfile.owner == refs && tree.owner == refs
      && Wf(tree.nodes) && curdir < |tree.nodes|
    }

    function FileNames(): seq<string>
      reads this, tree
      requires curdir < |tree.nodes|
    {
      FileKeys(tree.nodes, curdir)
    }

    function DirNames(): seq<string>
      reads this, tree
      requires curdir < |tree.nodes|
    {
      DirKeys(tree.nodes, curdir)
    }

    /**
     * kernel_zip(zf): a count of 1, a new tree, the cursor at the root, and
     * add_file(name i, i, NULL) on the root for each entry in turn. The tree
     * then holds exactly the directories and files the names describe.
     */
    constructor (zf: ZipArchive, names: seq<Option<string>>)
      requires zf.open && zf.owner == null && AllPresent(names)
      modifies zf
      ensures zfile == zf && fresh(refs) && fresh(tree) && zf.open
      ensures refs.count == 1 && refs.holders == multiset{this}
      ensures curdir == 0 && fileAt == Singular && dirAt == Singular && wrappedBy == null
      ensures Valid() && Represents(tree.nodes, Entries(names))
    {
      zfile := zf;
      refs := new Counter(false);
      tree := new ParsedTree();
      curdir := 0;
      fileAt := Singular;
      dirAt := Singular;
      wrappedBy := null;
      new;
      refs.holders := multiset{this};
      EmptyRepresentsNothing();
      assert Entries(names)[..0] == [];
      var i := 0;
      while i < |names|
        invariant 0 <= i <= |names| && tree.live
        invariant Represents(tree.nodes, Entries(names)[..i])
        modifies tree
      {
        ghost var n0 := tree.nodes;
        ParentKept(n0, 0);
        tree.AddFile(names[i].value, i, 0, None);
        AddFileMeaning(n0, tree.nodes, Entries(names)[..i], names[i].value);
        EntriesSnoc(names, i);
        i := i + 1;
      }
      assert Entries(names)[..|names|] == Entries(names);
      tree.owner := refs;
      zf.owner := refs;
    }

    /** kernel_zip(const kernel_zip*): share everything, copy the cursor, and count one more kernel. */
    constructor CopyOf(dz: KernelZip)
      requires dz.Valid()
      modifies dz.refs
      ensures zfile == dz.zfile && refs == dz.refs && tree == dz.tree
      ensures curdir == dz.curdir && fileAt == dz.fileAt && dirAt == dz.dirAt && wrappedBy == null
      ensures refs.count == old(dz.refs.count) + 1 && refs.holders == old(dz.refs.holders) + multiset{this}
      ensures Valid() && dz.Valid()
    {
      zfile := dz.zfile;
      refs := dz.refs;
      tree := dz.tree;
      curdir := dz.curdir;
      fileAt := dz.fileAt;
      dirAt := dz.dirAt;
      wrappedBy := null;
      new;
      refs.count := refs.count + 1;
      refs.holders := refs.holders + multiset{this};
    }

    /** first_file: restart at the first file name and return it, or "" when the directory has none. */
    method FirstFile() returns (name: string)
      requires Valid()
      modifies this
      ensures Valid()
      ensures name == NameAt(FileNames(), 0) && (|name| == 0 <==> FileNames() == [])
      ensures fileAt == At(curdir, StepFrom(FileNames(), 0))
      ensures curdir == old(curdir) && dirAt == old(dirAt) && wrappedBy == old(wrappedBy)
    {
      fileAt := At(curdir, 0);
      name := NextFile();
    }

    /** first_directory: restart at the first subdirectory name and return it, or "" when there is none. */
    method FirstDirectory() returns (name: string)
      requires Valid()
      modifies this
      ensures Valid()
      ensures name == NameAt(DirNames(), 0) && (|name| == 0 <==> DirNames() == [])
      ensures dirAt == At(curdir, StepFrom(DirNames(), 0))
      ensures curdir == old(curdir) && fileAt == old(fileAt) && wrappedBy == old(wrappedBy)
    {
      dirAt := At(curdir, 0);
      name := NextDirectory();
    }

    /**
     * next_file: the name under the iterator, moving it on; "" once it is at
     * end(), where it stays. The iterator must be one of this directory's.
     */
    method NextFile() returns (name: string)
      requires Valid() && fileAt.At? && fileAt.node == curdir && fileAt.pos <= |FileNames()|
      modifies this
      ensures Valid()
      ensures name == NameAt(FileNames(), old(fileAt.pos))
      ensures |name| == 0 <==> old(fileAt.pos) == |FileNames()|
      ensures fileAt == At(curdir, StepFrom(FileNames(), old(fileAt.pos)))
      ensures curdir == old(curdir) && dirAt == old(dirAt) && wrappedBy == old(wrappedBy)
    {
      var keys := SortedKeys(tree.nodes[curdir].files.Keys);
      NoEmptyKeys(tree.nodes, curdir);
      if fileAt.pos == |keys| {
        return [];
      }
      name := keys[fileAt.pos];
      fileAt := At(curdir, fileAt.pos + 1);
    }

    /** next_directory: as next_file, over the subdirectory names. */
    method NextDirectory() returns (name: string)
      requires Valid() && dirAt.At? && dirAt.node == curdir && dirAt.pos <= |DirNames()|
      modifies this
      ensures Valid()
      ensures name == NameAt(DirNames(), old(dirAt.pos))
      ensures |name| == 0 <==> old(dirAt.pos) == |DirNames()|
      ensures dirAt == At(curdir, StepFrom(DirNames(), old(dirAt.pos)))
      ensures curdir == old(curdir) && fileAt == old(fileAt) && wrappedBy == old(wrappedBy)
    {
      var keys := SortedKeys(tree.nodes[curdir].subdirs.Keys);
      NoEmptyKeys(tree.nodes, curdir);
      if dirAt.pos == |keys| {
        return [];
      }
      name := keys[dirAt.pos];
      dirAt := At(curdir, dirAt.pos + 1);
    }

    /** file_count: the size of the file map, which is the number of names a listing yields. */
    method FileCount() returns (n: nat)
      requires Valid()
      ensures n == |FileNames()| && n == |tree.nodes[curdir].files|
    {
      n := |tree.nodes[curdir].files|;
    }

    /** directory_count: the size of the subdirectory map, the number of names a listing yields. */
    method DirectoryCount() returns (n: nat)
      requires Valid()
      ensures n == |DirNames()| && n == |tree.nodes[curdir].subdirs|
    {
      n := |tree.nodes[curdir].subdirs|;
    }

    /** enter: move into the subdirectory dname if there is one; otherwise stay. */
    method Enter(dname: string) returns (ok: bool)
      requires Valid()
      modifies this
      ensures Valid()
      ensures ok <==> dname in tree.nodes[old(curdir)].subdirs
      ensures curdir == if ok then tree.nodes[old(curdir)].subdirs[dname] else old(curdir)
      ensures ok ==> tree.nodes[curdir].parent == Some(old(curdir))
      ensures fileAt == old(fileAt) && dirAt == old(dirAt) && wrappedBy == old(wrappedBy)
    {
      if dname !in tree.nodes[curdir].subdirs {
        return false;
      }
      EnterThenLeave(tree.nodes, curdir, dname);
      curdir := tree.nodes[curdir].subdirs[dname];
      ok := true;
    }

    /**
     * enter_new: NULL when dname is not a subdirectory; otherwise a new
     * kernel sharing everything with this one, counted, whose cursor is in
     * the subdirectory. This kernel does not move.
     */
    method EnterNew(dname: string) returns (k: KernelZip?)
      requires Valid()
      modifies refs
      ensures k == null <==> dname !in tree.nodes[curdir].subdirs
      ensures k == null ==> refs.count == old(refs.count) && refs.holders == old(refs.holders)
      ensures k != null ==> && fresh(k) && k.zfile == zfile && k.refs == refs && k.tree == tree
                            && k.curdir == tree.nodes[curdir].subdirs[dname]
                            && k.fileAt == fileAt && k.dirAt == dirAt && k.wrappedBy == null
                            && refs.count == old(refs.count) + 1 && refs.holders == old(refs.holders) + multiset{k}
                            && k.Valid()
      ensures Valid()
    {
      if dname !in tree.nodes[curdir].subdirs {
        return null;
      }
      var child := tree.nodes[curdir].subdirs[dname];
      k := new KernelZip.CopyOf(this);
      k.curdir := child;
    }

    /** leave: move to the parent; fails, staying put, exactly at the root. */
    method Leave() returns (ok: bool)
      requires Valid()
      modifies this
      ensures Valid()
      ensures ok <==> old(curdir) != 0
      ensures ok ==> Some(curdir) == tree.nodes[old(curdir)].parent && curdir < old(curdir)
      ensures !ok ==> curdir == old(curdir)
      ensures fileAt == old(fileAt) && dirAt == old(dirAt) && wrappedBy == old(wrappedBy)
    {
      RootOnlyOrphan(tree.nodes, curdir);
      if tree.nodes[curdir].parent.None? {
        return false;
      }
      curdir := tree.nodes[curdir].parent.value;
      ok := true;
    }

    /** ~kernel_zip: count one kernel less; the last one closes the archive and frees the tree and the count. */
    method Destroy()
      requires Valid()
      modifies refs, zfile, tree
      ensures refs.count == old(refs.count) - 1 && refs.holders == old(refs.holders) - multiset{this}
      ensures refs.count == 0 <==> old(refs.holders) == multiset{this}
      ensures refs.count == 0 ==> !refs.live && !zfile.open && !tree.live
      ensures refs.count > 0 ==> refs.live && zfile.open && tree.live
      ensures tree.nodes == old(tree.nodes) && tree.owner == old(tree.owner) && zfile.owner == old(zfile.owner)
    {
      refs.count := refs.count - 1;
      refs.holders := refs.holders - multiset{this};
      assert old(refs.holders) == refs.holders + multiset{this};
      assert refs.count == |refs.holders|;
      if refs.count == 0 {
        zfile.open := false;
        tree.live := false;
        refs.live := false;
      }
    }
  }
}
