/**
 * eff::directory (include/gdir.hpp): a value handle on a directory kernel.
 * Copies of a handle share the kernel and a heap `size_t` count of the
 * handles; the last handle released deletes the kernel and the count. The
 * one kernel modelled is directory_zip::kernel_zip, and opening an archive
 * (directory_zip::enter, src/gdir.cpp:340-355) is modelled on a given
 * zip_open result.
 */
module Directories {
  import opened Wrappers
  import opened ArchivePaths
  import opened ArchiveTree
  import opened ZipKernel

  class Directory {
    /** The kernel pointer; null for a handle that is not open. */
    var kernel: KernelZip?
    /** The shared count of the handles on kernel. */
    var krefs: Counter

    /** The count is a live count of handles that counts this one, and a kernel is valid and wrapped by it. */
    ghost predicate Valid()
      reads this, krefs, kernel, if kernel == null then {} else {kernel.zfile, kernel.refs, kernel.tree}
    {
      && krefs.Counts(this) && krefs.ofHandles
      && (kernel != null ==> kernel.Valid() && kernel.wrappedBy == krefs)
    }

    /** is_open: the kernel pointer is set. */
    predicate IsOpen()
      reads this
    {
      kernel != null
    }

    /** good: the same test as is_open. */
    predicate Good()
      reads this
    {
      IsOpen()
    }

    /** directory(directory_kernel *k): wrap k, null or not, in a new count of 1. */
    constructor (k: KernelZip?)
      requires k != null ==> k.Valid() && k.wrappedBy == null
      modifies k
      ensures kernel == k && fresh(krefs) && krefs.count == 1 && krefs.holders == multiset{this}
      ensures k != null ==> k.wrappedBy == krefs && unchanged(k.refs, k.zfile, k.tree)
      ensures k != null ==> k.curdir == old(k.curdir) && k.fileAt == old(k.fileAt) && k.dirAt == old(k.dirAt)
      ensures Valid()
    {
      kernel := k;
      krefs := new Counter(true);
      new;
      krefs.holders := multiset{this};
      if k != null {
        k.wrappedBy := krefs;
      }
    }

    /** directory(const directory &d): share d's kernel and count, one handle more. */
    constructor Copy(d: Directory)
      requires d.Valid()
      modifies d.krefs
      ensures kernel == d.kernel && krefs == d.krefs
      ensures krefs.count == old(d.krefs.count) + 1 && krefs.holders == old(d.krefs.holders) + multiset{this}
      ensures Valid() && d.Valid()
    {
      kernel := d.kernel;
      krefs := d.krefs;
      new;
      krefs.count := krefs.count + 1;
      krefs.holders := krefs.holders + multiset{this};
    }

    /**
     * unref, which is all of ~directory: one handle less; at zero, delete the
     * kernel (running ~kernel_zip) and the count.
     */
    method Unref()
      requires Valid()
      modifies krefs, if kernel == null then {} else {kernel.refs, kernel.zfile, kernel.tree}
      ensures krefs.count == old(krefs.count) - 1 && krefs.holders == old(krefs.holders) - multiset{this}
      ensures krefs.live <==> old(krefs.holders) != multiset{this}
      ensures krefs.live && kernel != null ==> PartsKept(kernel)
      ensures !krefs.live && kernel != null ==> KernelReleased(kernel)
    {
      krefs.count := krefs.count - 1;
      krefs.holders := krefs.holders - multiset{this};
      assert old(krefs.holders) == krefs.holders + multiset{this};
      if krefs.count == 0 {
        if kernel != null {
          kernel.Destroy();
        }
        krefs.live := false;
      }
    }

    /** first_file, through the kernel. */
    method FirstFile() returns (name: string)
      requires Valid() && IsOpen()
      modifies kernel
      ensures Valid()
      ensures name == NameAt(kernel.FileNames(), 0) && (|name| == 0 <==> kernel.FileNames() == [])
      ensures kernel.fileAt == At(kernel.curdir, StepFrom(kernel.FileNames(), 0))
      ensures kernel.curdir == old(kernel.curdir) && kernel.dirAt == old(kernel.dirAt)
    {
      name := kernel.FirstFile();
    }

    /** first_directory, through the kernel. */
    method FirstDirectory() returns (name: string)
      requires Valid() && IsOpen()
      modifies kernel
      ensures Valid()
      ensures name == NameAt(kernel.DirNames(), 0) && (|name| == 0 <==> kernel.DirNames() == [])
      ensures kernel.dirAt == At(kernel.curdir, StepFrom(kernel.DirNames(), 0))
      ensures kernel.curdir == old(kernel.curdir) && kernel.fileAt == old(kernel.fileAt)
    {
      name := kernel.FirstDirectory();
    }

    /** next_file, through the kernel; the file iterator must have been started by first_file. */
    method NextFile() returns (name: string)
      requires Valid() && IsOpen()
      requires kernel.fileAt.At? && kernel.fileAt.node == kernel.curdir && kernel.fileAt.pos <= |kernel.FileNames()|
      modifies kernel
      ensures Valid()
      ensures name == NameAt(kernel.FileNames(), old(kernel.fileAt.pos))
      ensures |name| == 0 <==> old(kernel.fileAt.pos) == |kernel.FileNames()|
      ensures kernel.fileAt == At(kernel.curdir, StepFrom(kernel.FileNames(), old(kernel.fileAt.pos)))
      ensures kernel.curdir == old(kernel.curdir) && kernel.dirAt == old(kernel.dirAt)
    {
      name := kernel.NextFile();
    }

    /** next_directory, through the kernel; the directory iterator must have been started by first_directory. */
    method NextDirectory() returns (name: string)
      requires Valid() && IsOpen()
      requires kernel.dirAt.At? && kernel.dirAt.node == kernel.curdir && kernel.dirAt.pos <= |kernel.DirNames()|
      modifies kernel
      ensures Valid()
      ensures name == NameAt(kernel.DirNames(), old(kernel.dirAt.pos))
      ensures |name| == 0 <==> old(kernel.dirAt.pos) == |kernel.DirNames()|
      ensures kernel.dirAt == At(kernel.curdir, StepFrom(kernel.DirNames(), old(kernel.dirAt.pos)))
      ensures kernel.curdir == old(kernel.curdir) && kernel.fileAt == old(kernel.fileAt)
    {
      name := kernel.NextDirectory();
    }

    /** file_count, through the kernel: the number of files in the current directory. */
    method FileCount() returns (n: nat)
      requires Valid() && IsOpen()
      ensures n == |kernel.FileNames()| && n == |kernel.tree.nodes[kernel.curdir].files|
    {
      n := kernel.FileCount();
    }

    /** directory_count, through the kernel: the number of subdirectories of the current directory. */
    method DirectoryCount() returns (n: nat)
      requires Valid() && IsOpen()
      ensures n == |kernel.DirNames()| && n == |kernel.tree.nodes[kernel.curdir].subdirs|
    {
      n := kernel.DirectoryCount();
    }

    /**
     * The listing loop of the tests: first_file, then next_file until "".
     * It yields every file name of the current directory once, in
     * ascending order.
     */
    method ListFiles() returns (names: seq<string>)
      requires Valid() && IsOpen()
      modifies kernel
      ensures Valid()
      ensures names == kernel.FileNames() && Ascending(names)
      ensures forall f :: f in names <==> f in kernel.tree.nodes[kernel.curdir].files
      ensures kernel.fileAt == At(kernel.curdir, |names|)
      ensures kernel.curdir == old(kernel.curdir) && kernel.dirAt == old(kernel.dirAt)
    {
      ghost var keys := kernel.FileNames();
      NoEmptyKeys(kernel.tree.nodes, kernel.curdir);
      var name := FirstFile();
      names := [];
      while |name| > 0
        invariant Valid() && kernel.curdir == old(kernel.curdir) && kernel.dirAt == old(kernel.dirAt)
        invariant kernel.FileNames() == keys && kernel.fileAt == At(kernel.curdir, StepFrom(keys, |names|))
        invariant ListedSoFar(keys, names, name)
        decreases |keys| - |names|
      {
        ListedStep(keys, names, name);
        names := names + [name];
        name := NextFile();
      }
      assert names == keys[..|keys|];
      assert names == keys;
    }

    /** The directory listing loop of the tests: every subdirectory name once, ascending. */
    method ListDirectories() returns (names: seq<string>)
      requires Valid() && IsOpen()
      modifies kernel
      ensures Valid()
      ensures names == kernel.DirNames() && Ascending(names)
      ensures forall d :: d in names <==> d in kernel.tree.nodes[kernel.curdir].subdirs
      ensures kernel.dirAt == At(kernel.curdir, |names|)
      ensures kernel.curdir == old(kernel.curdir) && kernel.fileAt == old(kernel.fileAt)
    {
      ghost var keys := kernel.DirNames();
      NoEmptyKeys(kernel.tree.nodes, kernel.curdir);
      var name := FirstDirectory();
      names := [];
      while |name| > 0
        invariant Valid() && kernel.curdir == old(kernel.curdir) && kernel.fileAt == old(kernel.fileAt)
        invariant kernel.DirNames() == keys && kernel.dirAt == At(kernel.curdir, StepFrom(keys, |names|))
        invariant ListedSoFar(keys, names, name)
        decreases |keys| - |names|
      {
        ListedStep(keys, names, name);
        names := names + [name];
        name := NextDirectory();
      }
      assert names == keys[..|keys|];
      assert names == keys;
    }

    /** enter, through the kernel: true, having moved, exactly when dname is a subdirectory. */
    method Enter(dname: string) returns (ok: bool)
      requires Valid() && IsOpen()
      modifies kernel
      ensures Valid()
      ensures ok <==> dname in kernel.tree.nodes[old(kernel.curdir)].subdirs
      ensures kernel.curdir == if ok then kernel.tree.nodes[old(kernel.curdir)].subdirs[dname] else old(kernel.curdir)
      ensures kernel.fileAt == old(kernel.fileAt) && kernel.dirAt == old(kernel.dirAt)
    {
      ok := kernel.Enter(dname);
    }

    /** leave, through the kernel: false exactly at the root. */
    method Leave() returns (ok: bool)
      requires Valid() && IsOpen()
      modifies kernel
      ensures Valid()
      ensures ok <==> old(kernel.curdir) != 0
      ensures ok ==> Some(kernel.curdir) == kernel.tree.nodes[old(kernel.curdir)].parent
      ensures !ok ==> kernel.curdir == old(kernel.curdir)
      ensures kernel.fileAt == old(kernel.fileAt) && kernel.dirAt == old(kernel.dirAt)
    {
      ok := kernel.Leave();
    }

    /**
     * enter_new: a new handle, with a count of its own, on the kernel's
     * enter_new result. It is open exactly when dname is a subdirectory, and
     * then its kernel is in that subdirectory and shares this kernel's tree.
     */
    method EnterNew(dname: string) returns (d: Directory)
      requires Valid() && IsOpen()
      modifies kernel.refs
      ensures Valid() && fresh(d) && fresh(d.krefs) && d.Valid()
      ensures d.krefs.count == 1 && d.krefs.holders == multiset{d}
      ensures d.IsOpen() <==> dname in kernel.tree.nodes[kernel.curdir].subdirs
      ensures d.IsOpen() ==> && fresh(d.kernel) && d.kernel.tree == kernel.tree && d.kernel.refs == kernel.refs
                             && d.kernel.curdir == kernel.tree.nodes[kernel.curdir].subdirs[dname]
                             && kernel.refs.count == old(kernel.refs.count) + 1
      ensures !d.IsOpen() ==> kernel.refs.count == old(kernel.refs.count)
    {
      var k := kernel.EnterNew(dname);
      d := new Directory(k);
    }

    /**
     * operator=, as written: release the old target only when its kernel is
     * set, then share dir's kernel and count. Releasing first frees a count
     * of 1 that dir may be using; skipping the release on a null kernel
     * never decrements that handle's count. The body follows those steps
     * case by case: with a null kernel only the share; on `d = d` the
     * release and the share on the same count; between distinct handles the
     * release, which leaves dir valid, and the share.
     */
    method Assign(dir: Directory)
      requires Valid() && dir.Valid()
      modifies this, krefs, dir.krefs, if kernel == null then {} else {kernel.refs, kernel.zfile, kernel.tree}
      ensures kernel == old(dir.kernel) && krefs == old(dir.krefs)
      ensures old(krefs) != krefs ==>
                krefs.count == old(dir.krefs.count) + 1 && krefs.holders == old(dir.krefs.holders) + multiset{this}
      ensures old(krefs) != krefs && old(kernel) == null ==> unchanged(old(krefs))
      ensures old(krefs) != krefs && old(kernel) != null ==>
                && old(krefs).count == old(krefs.count) - 1
                && old(krefs).holders == old(krefs.holders) - multiset{this}
      ensures old(krefs) == krefs ==>
                && krefs.count == old(krefs.count) + (if old(kernel) == null then 1 else 0)
                && krefs.holders == old(krefs.holders) + (if old(kernel) == null then multiset{this} else multiset{})
      ensures old(kernel) != null ==> (old(krefs).live <==> old(krefs.holders) != multiset{this})
      ensures this != dir || old(kernel) == null || old(krefs.count) > 1 ==> Valid() && dir.Valid()
    {
      if kernel == null {
        Share(dir);
      } else if this == dir {
        SelfAssign();
      } else if krefs == dir.krefs {
        // unref() cannot free a count that dir holds too
        ShareSame(dir);
      } else {
        SwitchCount(dir);
      }
    }

    /**
     * operator= as written on `d = d` with the kernel set: unref(), then
     * take the same count back. A count above 1 survives the round trip;
     * a count of 1 is deleted first.
     */
    method SelfAssign()
      requires Valid() && kernel != null
      modifies this, krefs, kernel.refs, kernel.zfile, kernel.tree
      ensures kernel == old(kernel) && krefs == old(krefs)
      ensures krefs.count == old(krefs.count) && krefs.holders == old(krefs.holders)
      ensures krefs.live <==> old(krefs.holders) != multiset{this}
      ensures old(krefs.count) > 1 ==> Valid()
    {
      ghost var h0 := krefs.holders;
      assert this in h0;
      Unref();
      if old(krefs.count) > 1 {
        assert h0 != multiset{this};
      }
      Share(this);
      assert (h0 - multiset{this}) + multiset{this} == h0;
    }

    /**
     * operator= as evidently intended: assigning a handle to itself does
     * nothing; otherwise release the old target whatever its kernel (delete
     * of a null kernel does nothing), then share dir's kernel and count.
     */
    method AssignFixed(dir: Directory)
      requires Valid() && dir.Valid()
      modifies this, krefs, dir.krefs, if kernel == null then {} else {kernel.refs, kernel.zfile, kernel.tree}
      ensures Valid() && kernel == old(dir.kernel) && krefs == old(dir.krefs)
      ensures old(krefs) == krefs ==> krefs.count == old(krefs.count) && krefs.holders == old(krefs.holders)
      ensures old(krefs) != krefs ==>
                && krefs.count == old(dir.krefs.count) + 1 && krefs.holders == old(dir.krefs.holders) + multiset{this}
                && old(krefs).count == old(krefs.count) - 1
                && old(krefs).holders == old(krefs.holders) - multiset{this}
                && (old(krefs).live <==> old(krefs.holders) != multiset{this})
    {
      if this != dir {
        if krefs == dir.krefs {
          ShareSame(dir);
        } else {
          SwitchCount(dir);
        }
      }
    }

    /** The repaired operator= between two handles on the same count: one holder out, then back in. */
    method ShareSame(dir: Directory)
      requires Valid() && dir.Valid() && this != dir && krefs == dir.krefs
      modifies this, krefs, if kernel == null then {} else {kernel.refs, kernel.zfile, kernel.tree}
      ensures Valid() && kernel == old(dir.kernel) && krefs == old(krefs)
      ensures krefs.count == old(krefs.count) && krefs.holders == old(krefs.holders)
    {
      ghost var h0 := krefs.holders;
      assert this in h0;
      ReleaseBeside(dir);
      Share(dir);
      assert (h0 - multiset{this}) + multiset{this} == h0;
    }

    /** The repaired operator= between handles on different counts: leave the old one, join dir's. */
    method SwitchCount(dir: Directory)
      requires Valid() && dir.Valid() && this != dir && krefs != dir.krefs
      modifies this, krefs, dir.krefs, if kernel == null then {} else {kernel.refs, kernel.zfile, kernel.tree}
      ensures Valid() && kernel == old(dir.kernel) && krefs == old(dir.krefs)
      ensures krefs.count == old(dir.krefs.count) + 1 && krefs.holders == old(dir.krefs.holders) + multiset{this}
      ensures old(krefs).count == old(krefs.count) - 1 && old(krefs).holders == old(krefs.holders) - multiset{this}
      ensures old(krefs).live <==> old(krefs.holders) != multiset{this}
    {
      ghost var mine := krefs;
      ReleaseBeside(dir);
      ghost var c1, h1, l1 := mine.count, mine.holders, mine.live;
      Share(dir);
      assert mine.count == c1 && mine.holders == h1 && mine.live == l1;
    }

    /** unref on this handle, which leaves the distinct handle other valid. */
    method ReleaseBeside(other: Directory)
      requires Valid() && other.Valid() && this != other
      modifies krefs, if kernel == null then {} else {kernel.refs, kernel.zfile, kernel.tree}
      ensures other.Valid()
      ensures krefs.count == old(krefs.count) - 1 && krefs.holders == old(krefs.holders) - multiset{this}
      ensures krefs.live <==> old(krefs.holders) != multiset{this}
    {
      Unref();
      OtherHandleSurvives((this, other));
    }

    /**
     * The second half of operator=: one handle more on dir's count, and
     * dir's kernel and count taken over.
     */
    method Share(dir: Directory)
      modifies this, dir.krefs
      ensures kernel == old(dir.kernel) && krefs == old(dir.krefs)
      ensures krefs.count == old(dir.krefs.count) + 1 && krefs.holders == old(dir.krefs.holders) + multiset{this}
      ensures krefs.live == old(dir.krefs.live)
      ensures old(dir.Valid()) ==> Valid()
    {
      var k, c := dir.kernel, dir.krefs;
      c.count := c.count + 1;
      c.holders := c.holders + multiset{this};
      kernel := k;
      krefs := c;
    }
  }

  /**
   * On a valid handle, is_open and good are the same test, and it holds
   * exactly when the handle wraps a valid kernel: the one state in which the
   * forwarding members may be called.
   */
  lemma OpenTests(d: Directory)
    requires d.Valid()
    ensures d.Good() <==> d.IsOpen()
    ensures d.IsOpen() <==> d.kernel != null && d.kernel.Valid() && d.kernel.wrappedBy == d.krefs
  {
  }

  /**
   * Releasing handle hg.0 leaves another handle hg.1 valid: a count that
   * the release frees counted hg.0 alone, and the kernel it deleted is not
   * hg.1's, which stays valid by KernelSurvives.
   */
  twostate lemma OtherHandleSurvives(hg: (Directory, Directory))
    requires old(hg.0.Valid()) && old(hg.1.Valid()) && hg.0 != hg.1
    requires hg.0.kernel == old(hg.0.kernel) && hg.0.krefs == old(hg.0.krefs)
    requires hg.1.kernel == old(hg.1.kernel) && hg.1.krefs == old(hg.1.krefs)
    requires hg.0.krefs.count == old(hg.0.krefs.count) - 1 && hg.0.krefs.holders == old(hg.0.krefs.holders) - multiset{hg.0}
    requires hg.0.krefs.live <==> old(hg.0.krefs.holders) != multiset{hg.0}
    requires hg.1.krefs != hg.0.krefs ==> CounterKept(hg.1.krefs)
    requires hg.0.krefs.live && hg.0.kernel != null ==> PartsKept(hg.0.kernel)
    requires !hg.0.krefs.live && hg.0.kernel != null ==> KernelReleased(hg.0.kernel)
    requires hg.1.kernel != null ==> && hg.1.kernel.curdir == old(hg.1.kernel.curdir) && hg.1.kernel.wrappedBy == old(hg.1.kernel.wrappedBy)
    requires hg.1.kernel != null && (hg.0.kernel == null || hg.1.kernel.refs != hg.0.kernel.refs) ==> CounterKept(hg.1.kernel.refs)
    requires hg.1.kernel != null && (hg.0.kernel == null || hg.1.kernel.zfile != hg.0.kernel.zfile) ==> ArchiveKept(hg.1.kernel.zfile)
    requires hg.1.kernel != null && (hg.0.kernel == null || hg.1.kernel.tree != hg.0.kernel.tree) ==> TreeKept(hg.1.kernel.tree)
    ensures hg.1.Valid()
  {
    var (h, g) := hg;
    if g.krefs == h.krefs {
      assert g in old(h.krefs.holders) - multiset{h};
    }
    if g.kernel != null && h.kernel != null {
      KernelSurvives((g.kernel, h.kernel));
    }
  }

  /**
   * Releasing kernel ks.1 leaves kernel ks.0 valid: a release that deletes
   * the tree and closes the archive drops the last reference on them, and
   * ks.0 holds one more on any count it shares with ks.1.
   */
  twostate lemma KernelSurvives(ks: (KernelZip, KernelZip))
    requires old(ks.0.Valid()) && old(ks.1.Valid()) && ks.0.curdir == old(ks.0.curdir)
    requires PartsKept(ks.1) || (ks.0 != ks.1 && KernelReleased(ks.1))
    requires ks.0.refs != ks.1.refs ==> CounterKept(ks.0.refs)
    requires ks.0.zfile != ks.1.zfile ==> ArchiveKept(ks.0.zfile)
    requires ks.0.tree != ks.1.tree ==> TreeKept(ks.0.tree)
    ensures ks.0.Valid()
  {
    var (k, k0) := ks;
    if !PartsKept(k0) && k.refs == k0.refs {
      assert old(k.refs.holders) == old(k.refs.holders) - multiset{k0} + multiset{k0};
      assert k in k.refs.holders;
    }
  }

  /** Nothing of the count c changed. */
  twostate predicate CounterKept(c: Counter)
    reads c
  {
    c.count == old(c.count) && c.holders == old(c.holders) && c.live == old(c.live)
  }

  /** Nothing of the archive z changed. */
  twostate predicate ArchiveKept(z: ZipArchive)
    reads z
  {
    z.open == old(z.open) && z.owner == old(z.owner)
  }

  /** Nothing of the tree t changed. */
  twostate predicate TreeKept(t: ParsedTree)
    reads t
  {
    t.live == old(t.live) && t.nodes == old(t.nodes) && t.owner == old(t.owner)
  }

  /** Nothing of what k shares with the kernels entered from it changed. */
  twostate predicate PartsKept(k: KernelZip)
    reads k.refs, k.zfile, k.tree
  {
    CounterKept(k.refs) && ArchiveKept(k.zfile) && TreeKept(k.tree)
  }

  /**
   * What ~kernel_zip did to k: one kernel less on its count; at zero, the
   * archive closed and the tree deleted. The tree's contents and the owners
   * stay as they were.
   */
  twostate predicate KernelReleased(k: KernelZip)
    reads k, k.refs, k.zfile, k.tree
  {
    && k.refs.count == old(k.refs.count) - 1 && k.refs.holders == old(k.refs.holders) - multiset{k}
    && (k.refs.count > 0 <==> k.refs.live) && (k.refs.count > 0 <==> k.zfile.open) && (k.refs.count > 0 <==> k.tree.live)
    && k.tree.nodes == old(k.tree.nodes) && k.tree.owner == old(k.tree.owner) && k.zfile.owner == old(k.zfile.owner)
  }

  /** ctor(k): the handle the converting constructor makes of k. */
  method Ctor(k: KernelZip?) returns (d: Directory)
    requires k != null ==> k.Valid() && k.wrappedBy == null
    modifies k
    ensures fresh(d) && fresh(d.krefs) && d.Valid() && d.kernel == k
    ensures d.krefs.count == 1 && d.krefs.holders == multiset{d}
    ensures k != null ==> unchanged(k.refs, k.zfile, k.tree) && k.curdir == old(k.curdir)
  {
    d := new Directory(k);
  }

  /**
   * directory_zip::enter on the result of zip_open: a handle that is not
   * open when the archive did not open, otherwise one on a new kernel whose
   * tree holds the archive's entries, at its root.
   */
  method OpenZip(zf: ZipArchive?, names: seq<Option<string>>) returns (d: Directory)
    requires zf != null ==> zf.open && zf.owner == null && AllPresent(names)
    modifies zf
    ensures fresh(d) && fresh(d.krefs) && d.Valid() && (d.IsOpen() <==> zf != null)
    ensures d.krefs.count == 1 && d.krefs.holders == multiset{d}
    ensures d.IsOpen() ==> && fresh(d.kernel) && d.kernel.zfile == zf && d.kernel.curdir == 0
                           && Represents(d.kernel.tree.nodes, Entries(names))
  {
    if zf == null {
      d := Ctor(null);
      return;
    }
    var k := new KernelZip(zf, names);
    d := Ctor(k);
  }
}
