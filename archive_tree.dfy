/**
 * parsed_directory (src/gdir.cpp:59-88): the directory tree that kernel_zip
 * builds from the flat entry names of an archive. The nodes live in an
 * arena, a sequence indexed by node id; a parsed_directory pointer is an id,
 * node 0 is the root. What the tree means is stated by path: Resolve walks
 * directory names from a node, and Represents ties the tree to the list of
 * entry names it was built from.
 */
module ArchiveTree {
  import opened Wrappers
  import opened ArchivePaths

  /** One parsed_directory: its parent link, its subdirectories and its files (name to entry index). */
  datatype Node = Node(parent: Option<nat>, subdirs: map<string, nat>, files: map<string, nat>)

  /** A fresh parsed_directory(): no parent, nothing in it. */
  const EMPTY: Node := Node(None, map[], map[])

  /** Every subdirectory entry names a node of the arena. */
  ghost predicate Closed(nodes: seq<Node>) {
    forall i, k {:trigger nodes[i].subdirs[k]} :: 0 <= i < |nodes| && k in nodes[i].subdirs ==> nodes[i].subdirs[k] < |nodes|
  }

  /** No two names of one map lead to the same node. */
  ghost predicate KeysDistinct(m: map<string, nat>) {
    forall k1, k2 :: k1 in m && k2 in m && m[k1] == m[k2] ==> k1 == k2
  }

  /** The subdirectory k of node i comes after i and has i as its parent; its name is not empty. */
  ghost predicate EdgeOk(nodes: seq<Node>, i: nat, k: string)
    requires i < |nodes| && k in nodes[i].subdirs
  {
    var c := nodes[i].subdirs[k];
    k != [] && i < c < |nodes| && nodes[c].parent == Some(i)
  }

  /**
   * The shape add_file keeps: node 0 is the root and the only node
   * without a parent, every subdirectory points forward to a node whose
   * parent is the directory holding it, and "" names no directory and no file.
   */
  ghost predicate Wf(nodes: seq<Node>) {
    && Closed(nodes)
    && |nodes| > 0
    && nodes[0].parent == None
    && (forall i, k {:trigger EdgeOk(nodes, i, k)} :: 0 <= i < |nodes| && k in nodes[i].subdirs ==> EdgeOk(nodes, i, k))
    && (forall i :: 0 <= i < |nodes| ==> KeysDistinct(nodes[i].subdirs))
    && (forall i :: 0 <= i < |nodes| ==> [] !in nodes[i].files)
    && (forall c :: 0 < c < |nodes| ==> nodes[c].parent.Some? && nodes[c].parent.value < c)
  }

  /** The node reached from i by entering the directories ps in turn. */
  function Resolve(nodes: seq<Node>, i: nat, ps: seq<string>): (r: Option<nat>)
    requires Closed(nodes) && i < |nodes|
    ensures r.Some? ==> r.value < |nodes|
    decreases |ps|
  {
    if ps == [] then Some(i)
    else if ps[0] in nodes[i].subdirs then Resolve(nodes, nodes[i].subdirs[ps[0]], ps[1..])
    else None
  }

  /** `if (!parent) parent = p;`, the first step of add_file on node at. */
  function SetParent(nodes: seq<Node>, at: nat, p: Option<nat>): (r: seq<Node>)
    requires at < |nodes|
    ensures |r| == |nodes|
  {
    if nodes[at].parent.None? then nodes[at := nodes[at].(parent := p)] else nodes
  }

  ghost predicate SubMap(a: map<string, nat>, b: map<string, nat>) {
    forall k :: k in a ==> k in b && b[k] == a[k]
  }

  /** n1 extends n0: nodes are only added, no parent changes and no subdirectory entry is lost or redirected. */
  ghost predicate Grows(n0: seq<Node>, n1: seq<Node>) {
    && |n0| <= |n1|
    && forall j :: 0 <= j < |n0| ==> n1[j].parent == n0[j].parent && SubMap(n0[j].subdirs, n1[j].subdirs)
  }

  /** The files node j had in n0; a node that did not exist had none. */
  function OldFiles(n0: seq<Node>, j: nat): map<string, nat> {
    if j < |n0| then n0[j].files else map[]
  }

  /**
   * Only the node the directories D lead to from at changes its files, and
   * only by mapping the file name, when there is one, to index.
   */
  ghost predicate FilesSet(n0: seq<Node>, n1: seq<Node>, at: nat, D: seq<string>, F: Option<string>, index: nat)
    requires Closed(n1) && at < |n1|
  {
    forall j :: 0 <= j < |n1| ==>
      n1[j].files == if F.Some? && Resolve(n1, at, D) == Some(j) then OldFiles(n0, j)[F.value := index] else OldFiles(n0, j)
  }

  /** The subdirectory k of node j is new in n1: it leads to a new node and is one step of D from at. */
  ghost predicate NewEdge(n0: seq<Node>, n1: seq<Node>, at: nat, D: seq<string>, j: nat, k: string)
    requires Closed(n1) && at < |n1| && j < |n1| && k in n1[j].subdirs
  {
    && n1[j].subdirs[k] >= |n0|
    && exists m :: 0 <= m < |D| && D[m] == k && Resolve(n1, at, D[..m]) == Some(j)
  }

  /** Every subdirectory entry of n1 is one of n0 or a new step along D. */
  ghost predicate NewEdgesOnPath(n0: seq<Node>, n1: seq<Node>, at: nat, D: seq<string>)
    requires Closed(n1) && at < |n1|
  {
    forall j, k {:trigger NewEdge(n0, n1, at, D, j, k)} ::
      0 <= j < |n1| && k in n1[j].subdirs && !(j < |n0| && k in n0[j].subdirs) ==> NewEdge(n0, n1, at, D, j, k)
  }

  /**
   * n is what add_file(path, index) on node at makes of n0: still well
   * formed, grown, with the directories of path present below at, the
   * file of path mapped to index there and nothing else changed, and every
   * new subdirectory on that path.
   */
  ghost predicate Added(n0: seq<Node>, n: seq<Node>, at: nat, path: string, index: nat) {
    && at < |n0| <= |n| && Wf(n) && Grows(n0, n)
    && Resolve(n, at, Dirs(path)).Some?
    && FilesSet(n0, n, at, Dirs(path), FileName(path), index)
    && NewEdgesOnPath(n0, n, at, Dirs(path))
  }

  /** The tree of a kernel_zip, created by `new parsed_directory` and shared by the kernels entered from it. */
  class ParsedTree {
    var nodes: seq<Node>
    /** False once `delete tree` has run. */
    var live: bool
    /** The reference count whose last release deletes the tree, once one owns it. */
    ghost var owner: object?

    /** `new parsed_directory`: a root with no parent and no entries. */
    constructor ()
      ensures nodes == [EMPTY] && live && owner == null && Wf(nodes)
    {
      nodes := [EMPTY];
      live := true;
      owner := null;
    }

    /**
     * add_file(path, index, p) on node at: set the parent if it is unset,
     * skip an empty component, descend into (creating if absent) the
     * directory named by a component that ends in `/`, and map a last,
     * non-empty component to index, overwriting an earlier one.
     */
    method AddFile(path: string, index: nat, at: nat, p: Option<nat>)
      requires at < |nodes| && Wf(SetParent(nodes, at, p))
      modifies this
      ensures Added(SetParent(old(nodes), at, p), nodes, at, path, index) && live == old(live)
      decreases |path|
    {
      if nodes[at].parent.None? {
        nodes := nodes[at := nodes[at].(parent := p)];
      }
      ghost var n0 := nodes;
      assert n0 == SetParent(old(nodes), at, p);
      var s: nat := 0;
      while s < |path| && path[s] != '/'
        invariant s <= |path| && forall i :: 0 <= i < s ==> path[i] != '/'
      {
        s := s + 1;
      }
      SegmentIs(path, s);
      if s < |path| {
        if s == 0 {
          ParentKept(nodes, at);
          AddFile(path[1..], index, at, nodes[at].parent);
          SkipSlash(n0, nodes, at, path, index);
        } else {
          var name := path[..s];
          var child: nat;
          if name in nodes[at].subdirs {
            child := nodes[at].subdirs[name];
            ExistingChild(n0, at, name);
          } else {
            child := |nodes|;
            nodes := nodes[at := nodes[at].(subdirs := nodes[at].subdirs[name := child])] + [EMPTY];
            NewChildWf(n0, at, name);
          }
          ghost var n1 := nodes;
          AddFile(path[s + 1..], index, child, Some(at));
          LiftThroughChild(n0, n1, nodes, at, name, child, path, s, index);
        }
      } else if s > 0 {
        LastComponent(path);
        FileBranch(nodes, at, path, index);
        nodes := nodes[at := nodes[at].(files := nodes[at].files[path := index])];
      } else {
        EmptyBranch(nodes, at, path, index);
      }
    }
  }

  /** The scan loop of add_file stops at Segment(path). */
  lemma SegmentIs(path: string, s: nat)
    requires s <= |path| && (s < |path| ==> path[s] == '/')
    requires forall i :: 0 <= i < s ==> path[i] != '/'
    ensures s == Segment(path)
  {
  }

  /** Setting the parent a node already has changes nothing. */
  lemma ParentKept(nodes: seq<Node>, at: nat)
    requires at < |nodes|
    ensures SetParent(nodes, at, nodes[at].parent) == nodes
  {
  }

  /** An empty component ending in `/` at the front is skipped: add_file on the rest does the same at the same node. */
  lemma SkipSlash(n0: seq<Node>, n: seq<Node>, at: nat, path: string, index: nat)
    requires 0 == Segment(path) < |path| && Added(n0, n, at, path[1..], index)
    ensures Added(n0, n, at, path, index)
  {
    assert Dirs(path) == Dirs(path[1..]) && FileName(path) == FileName(path[1..]);
  }

  /** A name without `/` has no directories and is its own file name. */
  lemma LastComponent(path: string)
    requires 0 < Segment(path) == |path|
    ensures path != [] && Dirs(path) == [] && FileName(path) == Some(path)
  {
  }

  /** The last component of the name, when it is not empty, becomes a file of at. */
  lemma FileBranch(n0: seq<Node>, at: nat, path: string, index: nat)
    requires Wf(n0) && at < |n0| && path != [] && Dirs(path) == [] && FileName(path) == Some(path)
    ensures Added(n0, n0[at := n0[at].(files := n0[at].files[path := index])], at, path, index)
  {
    var n := n0[at := n0[at].(files := n0[at].files[path := index])];
    SameShape(n0, n);
    FileSetAt(n0, n, at, path, index);
    NoNewEdges(n0, n, at, []);
  }

  /** Only node at gains the file. */
  lemma FileSetAt(n0: seq<Node>, n: seq<Node>, at: nat, f: string, index: nat)
    requires Closed(n) && at < |n0| && n == n0[at := n0[at].(files := n0[at].files[f := index])]
    ensures Resolve(n, at, []) == Some(at)
    ensures FilesSet(n0, n, at, [], Some(f), index)
  {
    forall j | 0 <= j < |n|
      ensures n[j].files == if Resolve(n, at, []) == Some(j) then OldFiles(n0, j)[f := index] else OldFiles(n0, j)
    {
    }
  }

  /** Without a new subdirectory entry, every new edge is on any path. */
  lemma NoNewEdges(n0: seq<Node>, n: seq<Node>, at: nat, D: seq<string>)
    requires Closed(n) && at < |n| == |n0|
    requires forall i :: 0 <= i < |n| ==> n[i].subdirs == n0[i].subdirs
    ensures NewEdgesOnPath(n0, n, at, D)
  {
  }

  /** Changing only files keeps the shape. */
  lemma SameShape(n0: seq<Node>, n: seq<Node>)
    requires Wf(n0) && |n| == |n0|
    requires forall i :: 0 <= i < |n| ==> n[i].subdirs == n0[i].subdirs && n[i].parent == n0[i].parent
    requires forall i :: 0 <= i < |n| ==> [] !in n[i].files
    ensures Wf(n) && Grows(n0, n)
  {
    forall i, k | 0 <= i < |n| && k in n[i].subdirs
      ensures EdgeOk(n, i, k)
    {
      assert EdgeOk(n0, i, k);
    }
  }

  /** An empty name changes nothing. */
  lemma EmptyBranch(n0: seq<Node>, at: nat, path: string, index: nat)
    requires Wf(n0) && at < |n0| && path == []
    ensures Added(n0, n0, at, path, index)
  {
    assert Dirs(path) == [] && FileName(path) == None;
    assert Resolve(n0, at, []) == Some(at);
  }

  /**
   * Node child is the subdirectory name of at in n1, which is n0 itself
   * when the subdirectory existed and n0 with a new empty last node
   * otherwise; n1 stays well formed once the child's parent is set to at.
   */
  ghost predicate ChildStep(n0: seq<Node>, n1: seq<Node>, at: nat, name: string, child: nat) {
    && at < |n0| && name != [] && child < |n1| && at < |n1|
    && name in n1[at].subdirs && n1[at].subdirs[name] == child
    && ((n1 == n0 && n0[child].parent == Some(at)) ||
        (name !in n0[at].subdirs && child == |n0| &&
         n1 == n0[at := n0[at].(subdirs := n0[at].subdirs[name := |n0|])] + [EMPTY]))
    && Wf(SetParent(n1, child, Some(at)))
  }

  /** An existing subdirectory already has at as its parent. */
  lemma ExistingChild(n0: seq<Node>, at: nat, name: string)
    requires Wf(n0) && at < |n0| && name in n0[at].subdirs
    ensures ChildStep(n0, n0, at, name, n0[at].subdirs[name])
  {
    assert EdgeOk(n0, at, name);
    assert SetParent(n0, n0[at].subdirs[name], Some(at)) == n0;
  }

  /** Creating the subdirectory name of at as a new last node, whose parent the callee then sets, keeps the shape. */
  lemma NewChildWf(n0: seq<Node>, at: nat, name: string)
    requires Wf(n0) && at < |n0| && name != [] && name !in n0[at].subdirs
    ensures ChildStep(n0, n0[at := n0[at].(subdirs := n0[at].subdirs[name := |n0|])] + [EMPTY], at, name, |n0|)
  {
    var n := n0[at := n0[at].(subdirs := n0[at].subdirs[name := |n0|])] + [EMPTY];
    var n1 := SetParent(n, |n0|, Some(at));
    assert n1 == n0[at := n0[at].(subdirs := n0[at].subdirs[name := |n0|])] + [Node(Some(at), map[], map[])];
    forall i, k | 0 <= i < |n1| && k in n1[i].subdirs
      ensures EdgeOk(n1, i, k)
    {
      if !(i == at && k == name) {
        assert EdgeOk(n0, i, k);
      }
    }
    NewChildDistinct(n0, at, name);
  }

  /** The new name leads to a node no other name of at leads to. */
  lemma NewChildDistinct(n0: seq<Node>, at: nat, name: string)
    requires Wf(n0) && at < |n0| && name !in n0[at].subdirs
    ensures KeysDistinct(n0[at].subdirs[name := |n0|])
  {
    var m := n0[at].subdirs[name := |n0|];
    forall k1, k2 | k1 in m && k2 in m && m[k1] == m[k2]
      ensures k1 == k2
    {
      if k1 != name {
        assert EdgeOk(n0, at, k1);
      }
      if k2 != name {
        assert EdgeOk(n0, at, k2);
      }
    }
  }

  /** Grows is transitive. */
  lemma GrowsTrans(a: seq<Node>, b: seq<Node>, c: seq<Node>)
    requires Grows(a, b) && Grows(b, c)
    ensures Grows(a, c)
  {
  }

  /**
   * The caller's postcondition from the callee's: add_file on the child
   * reached by the first component name of path does, seen from at, what
   * add_file does on path.
   */
  lemma LiftThroughChild(n0: seq<Node>, n1: seq<Node>, n2: seq<Node>, at: nat, name: string, child: nat,
                         path: string, s: nat, index: nat)
    requires Wf(n0) && 0 < s == Segment(path) < |path| && name == path[..s]
    requires ChildStep(n0, n1, at, name, child)
    requires Added(SetParent(n1, child, Some(at)), n2, child, path[s + 1..], index)
    ensures Added(n0, n2, at, path, index)
  {
    var rest := path[s + 1..];
    var n1' := SetParent(n1, child, Some(at));
    var D', D := Dirs(rest), Dirs(path);
    assert D == [name] + D' && FileName(path) == FileName(rest);
    ChildStepFacts(n0, n1, at, name, child);
    GrowsTrans(n0, n1', n2);
    assert D[0] == name && D[1..] == D';
    LiftFiles(n0, n1', n2, at, child, D', D, FileName(rest), index);
    LiftEdges(n0, n1', n2, at, name, child, D', D);
  }

  /** Entering or creating the child changes no files and adds at most the edge name of at. */
  lemma ChildStepFacts(n0: seq<Node>, n1: seq<Node>, at: nat, name: string, child: nat)
    requires Wf(n0) && ChildStep(n0, n1, at, name, child)
    ensures |n0| <= |n1| && Grows(n0, SetParent(n1, child, Some(at)))
    ensures forall j :: 0 <= j < |n1| ==> SetParent(n1, child, Some(at))[j].files == OldFiles(n0, j)
    ensures forall j, k :: 0 <= j < |n1| && k in SetParent(n1, child, Some(at))[j].subdirs && !(j < |n0| && k in n0[j].subdirs) ==>
      j == at && k == name
    ensures SetParent(n1, child, Some(at)) == n0 ||
      SetParent(n1, child, Some(at))[..|n0|] == n0[at := n0[at].(subdirs := n0[at].subdirs[name := |n0|])]
  {
    if n1 != n0 {
      assert SetParent(n1, child, Some(at))[..|n0|] == n1[..|n0|];
    }
  }

  lemma LiftFiles(n0: seq<Node>, n1: seq<Node>, n2: seq<Node>, at: nat, child: nat,
                  D': seq<string>, D: seq<string>, F: Option<string>, index: nat)
    requires Closed(n2) && at < |n2| && child < |n2|
    requires |n0| <= |n1| && forall j :: 0 <= j < |n1| ==> n1[j].files == OldFiles(n0, j)
    requires Resolve(n2, at, D) == Resolve(n2, child, D')
    requires FilesSet(n1, n2, child, D', F, index)
    ensures FilesSet(n0, n2, at, D, F, index)
  {
    forall j | 0 <= j < |n2| ensures OldFiles(n1, j) == OldFiles(n0, j) {
    }
  }

  lemma LiftEdges(n0: seq<Node>, n1: seq<Node>, n2: seq<Node>, at: nat, name: string, child: nat,
                  D': seq<string>, D: seq<string>)
    requires Closed(n2) && at < |n0| <= |n1| && child < |n2|
    requires D == [name] + D' && at < |n2| && name in n2[at].subdirs && n2[at].subdirs[name] == child
    requires n1 == n0 || (child == |n0| && n1[..|n0|] == n0[at := n0[at].(subdirs := n0[at].subdirs[name := |n0|])])
    requires forall j, k :: 0 <= j < |n1| && k in n1[j].subdirs && !(j < |n0| && k in n0[j].subdirs) ==> j == at && k == name
    requires NewEdgesOnPath(n1, n2, child, D')
    ensures NewEdgesOnPath(n0, n2, at, D)
  {
    forall j, k | 0 <= j < |n2| && k in n2[j].subdirs && !(j < |n0| && k in n0[j].subdirs)
      ensures NewEdge(n0, n2, at, D, j, k)
    {
      if j < |n1| && k in n1[j].subdirs {
        assert j == at && k == name;
        assert D[..0] == [];
        assert n1 != n0;
      } else {
        assert NewEdge(n1, n2, child, D', j, k);
        var m :| 0 <= m < |D'| && D'[m] == k && Resolve(n2, child, D'[..m]) == Some(j);
        assert D[..m + 1] == [name] + D'[..m];
        assert D[m + 1] == k;
        assert Resolve(n2, at, D[..m + 1]) == Some(j);
      }
    }
  }

  // ---------------------------------------------------------------------------
  // Paths

  lemma {:induction false} ResolveAppend(nodes: seq<Node>, i: nat, ps: seq<string>, qs: seq<string>)
    requires Closed(nodes) && i < |nodes|
    ensures Resolve(nodes, i, ps + qs) ==
      if Resolve(nodes, i, ps).Some? then Resolve(nodes, Resolve(nodes, i, ps).value, qs) else None
    decreases |ps|
  {
    if ps == [] {
      assert ps + qs == qs;
    } else {
      assert (ps + qs)[0] == ps[0] && (ps + qs)[1..] == ps[1..] + qs;
      if ps[0] in nodes[i].subdirs {
        ResolveAppend(nodes, nodes[i].subdirs[ps[0]], ps[1..], qs);
      }
    }
  }

  /** One more step: the last name is looked up in the node the others lead to. */
  lemma ResolveSnoc(nodes: seq<Node>, i: nat, ps: seq<string>, k: string)
    requires Closed(nodes) && i < |nodes|
    ensures Resolve(nodes, i, ps + [k]) ==
      match Resolve(nodes, i, ps)
      case None => None
      case Some(j) => if k in nodes[j].subdirs then Some(nodes[j].subdirs[k]) else None
  {
    ResolveAppend(nodes, i, ps, [k]);
    if Resolve(nodes, i, ps).Some? {
      var j := Resolve(nodes, i, ps).value;
      assert [k][1..] == [];
    }
  }

  /** Every prefix of a path that resolves resolves. */
  lemma ResolvePrefix(nodes: seq<Node>, i: nat, ps: seq<string>, m: nat)
    requires Closed(nodes) && i < |nodes| && m <= |ps| && Resolve(nodes, i, ps).Some?
    ensures Resolve(nodes, i, ps[..m]).Some?
  {
    ResolveAppend(nodes, i, ps[..m], ps[m..]);
    assert ps[..m] + ps[m..] == ps;
  }

  /** A path that resolves keeps resolving, to the same node, as the tree grows. */
  lemma {:induction false} ResolveGrows(n0: seq<Node>, n1: seq<Node>, i: nat, ps: seq<string>)
    requires Closed(n0) && Closed(n1) && Grows(n0, n1) && i < |n0|
    requires Resolve(n0, i, ps).Some?
    ensures Resolve(n1, i, ps) == Resolve(n0, i, ps)
    decreases |ps|
  {
    if ps != [] {
      ResolveGrows(n0, n1, n0[i].subdirs[ps[0]], ps[1..]);
    }
  }

  /** Below any node but the root, the path is not empty, and the node comes after the start. */
  lemma {:induction false} ResolveForward(nodes: seq<Node>, i: nat, ps: seq<string>)
    requires Wf(nodes) && i < |nodes| && Resolve(nodes, i, ps).Some?
    ensures Resolve(nodes, i, ps).value >= i
    ensures ps != [] ==> Resolve(nodes, i, ps).value > i
    decreases |ps|
  {
    if ps != [] {
      assert EdgeOk(nodes, i, ps[0]);
      ResolveForward(nodes, nodes[i].subdirs[ps[0]], ps[1..]);
    }
  }

  /** Two paths from one node that lead to the same node are the same path. */
  lemma {:induction false} ResolveInjective(nodes: seq<Node>, i: nat, ps: seq<string>, qs: seq<string>)
    requires Wf(nodes) && i < |nodes|
    requires Resolve(nodes, i, ps).Some? && Resolve(nodes, i, ps) == Resolve(nodes, i, qs)
    ensures ps == qs
    decreases |ps| + |qs|
  {
    if ps == [] || qs == [] {
      ResolveForward(nodes, i, ps);
      ResolveForward(nodes, i, qs);
    } else {
      var ps', a := ps[..|ps| - 1], ps[|ps| - 1];
      var qs', b := qs[..|qs| - 1], qs[|qs| - 1];
      assert ps == ps' + [a] && qs == qs' + [b];
      ResolveSnoc(nodes, i, ps', a);
      ResolveSnoc(nodes, i, qs', b);
      var j, j' := Resolve(nodes, i, ps').value, Resolve(nodes, i, qs').value;
      assert EdgeOk(nodes, j, a) && EdgeOk(nodes, j', b);
      assert KeysDistinct(nodes[j].subdirs);
      ResolveInjective(nodes, i, ps', qs');
    }
  }

  /** An edge of n1 that n0 does not have leads to a node n0 does not have. */
  ghost predicate NewEdgesFresh(n0: seq<Node>, n1: seq<Node>) {
    forall j, k :: 0 <= j < |n1| && k in n1[j].subdirs && !(j < |n0| && k in n0[j].subdirs) ==>
      n1[j].subdirs[k] >= |n0|
  }

  lemma OnPathIsFresh(n0: seq<Node>, n1: seq<Node>, at: nat, D: seq<string>)
    requires Closed(n1) && at < |n1| && NewEdgesOnPath(n0, n1, at, D)
    ensures NewEdgesFresh(n0, n1)
  {
    forall j, k | 0 <= j < |n1| && k in n1[j].subdirs && !(j < |n0| && k in n0[j].subdirs)
      ensures n1[j].subdirs[k] >= |n0|
    {
      assert NewEdge(n0, n1, at, D, j, k);
    }
  }

  /** A path of the grown tree that ends at an old node was already a path of the old tree. */
  lemma {:induction false} ResolveOldNode(n0: seq<Node>, n1: seq<Node>, i: nat, ps: seq<string>)
    requires Closed(n0) && Closed(n1) && Grows(n0, n1) && NewEdgesFresh(n0, n1) && i < |n0|
    requires Resolve(n1, i, ps).Some? && Resolve(n1, i, ps).value < |n0|
    ensures Resolve(n0, i, ps) == Resolve(n1, i, ps)
    decreases |ps|
  {
    if ps != [] {
      var ps', k := ps[..|ps| - 1], ps[|ps| - 1];
      assert ps == ps' + [k];
      ResolveSnoc(n1, i, ps', k);
      ResolveSnoc(n0, i, ps', k);
      var j := Resolve(n1, i, ps').value;
      assert j < |n0| && k in n0[j].subdirs;
      ResolveOldNode(n0, n1, i, ps');
    }
  }

  // ---------------------------------------------------------------------------
  // What the tree means

  /** The directory path ps is a prefix of the directories of some entry. */
  ghost predicate DirListed(entries: seq<string>, ps: seq<string>)
    decreases |entries|
  {
    entries != [] && (ps <= Dirs(entries[|entries| - 1]) || DirListed(entries[..|entries| - 1], ps))
  }

  /** The index of the last entry whose directories are ps and whose file name is f. */
  function FileIndex(entries: seq<string>, ps: seq<string>, f: string): (r: Option<nat>)
    ensures r.Some? ==> r.value < |entries|
    decreases |entries|
  {
    if entries == [] then None
    else
      var e := entries[|entries| - 1];
      if Dirs(e) == ps && FileName(e) == Some(f) then Some(|entries| - 1)
      else FileIndex(entries[..|entries| - 1], ps, f)
  }

  /** std::map lookup: the index stored for f, if any. */
  function FileAt(files: map<string, nat>, f: string): Option<nat> {
    if f in files then Some(files[f]) else None
  }

  /**
   * The tree holds exactly the directories the entries name and, in each,
   * exactly the files they name, each with the index of the last entry
   * that names it.
   */
  ghost predicate DirMeaning(nodes: seq<Node>, entries: seq<string>, ps: seq<string>)
    requires Closed(nodes) && |nodes| > 0
  {
    && (Resolve(nodes, 0, ps).Some? <==> ps == [] || DirListed(entries, ps))
    && (Resolve(nodes, 0, ps).Some? ==>
          forall f :: FileAt(nodes[Resolve(nodes, 0, ps).value].files, f) == FileIndex(entries, ps, f))
  }

  ghost predicate Represents(nodes: seq<Node>, entries: seq<string>) {
    Wf(nodes) && forall ps :: DirMeaning(nodes, entries, ps)
  }

  lemma {:induction false} FileIndexListed(entries: seq<string>, ps: seq<string>, f: string)
    requires FileIndex(entries, ps, f).Some?
    ensures DirListed(entries, ps)
    decreases |entries|
  {
    if Dirs(entries[|entries| - 1]) != ps || FileName(entries[|entries| - 1]) != Some(f) {
      FileIndexListed(entries[..|entries| - 1], ps, f);
    }
  }

  /** The bare root of a new tree represents no entries. */
  lemma EmptyRepresentsNothing()
    ensures Represents([EMPTY], [])
  {
    forall ps ensures DirMeaning([EMPTY], [], ps) {
    }
  }

  /** After add_file from the root, exactly the directories along D are new. */
  lemma DirsAfterAdd(n0: seq<Node>, n1: seq<Node>, D: seq<string>, ps: seq<string>)
    requires Wf(n0) && Wf(n1) && Grows(n0, n1) && NewEdgesOnPath(n0, n1, 0, D)
    requires Resolve(n1, 0, D).Some?
    ensures Resolve(n1, 0, ps).Some? <==> Resolve(n0, 0, ps).Some? || ps <= D
  {
    if Resolve(n0, 0, ps).Some? {
      ResolveGrows(n0, n1, 0, ps);
    }
    if ps <= D {
      ResolvePrefix(n1, 0, D, |ps|);
      assert D[..|ps|] == ps;
    }
    if Resolve(n1, 0, ps).Some? && Resolve(n0, 0, ps).None? {
      NewPathOnD(n0, n1, D, ps);
    }
  }

  /** A path that resolves only after add_file is a prefix of the directories added. */
  lemma NewPathOnD(n0: seq<Node>, n1: seq<Node>, D: seq<string>, ps: seq<string>)
    requires Closed(n0) && |n0| > 0 && Wf(n1) && Grows(n0, n1) && NewEdgesOnPath(n0, n1, 0, D)
    requires Resolve(n1, 0, ps).Some? && Resolve(n0, 0, ps).None?
    ensures ps <= D
  {
    LastStepIsNew(n0, n1, D, ps);
    var qs, k := ps[..|ps| - 1], ps[|ps| - 1];
    var j := Resolve(n1, 0, qs).value;
    assert NewEdge(n0, n1, 0, D, j, k);
    var m :| 0 <= m < |D| && D[m] == k && Resolve(n1, 0, D[..m]) == Some(j);
    ResolveInjective(n1, 0, qs, D[..m]);
    PrefixThroughLast(ps, D, m);
  }

  /** A non-empty sequence whose front is D[..m] and whose last element is D[m] is D[..m + 1]. */
  lemma PrefixThroughLast(ps: seq<string>, D: seq<string>, m: nat)
    requires ps != [] && m < |D| && ps[..|ps| - 1] == D[..m] && ps[|ps| - 1] == D[m]
    ensures ps == D[..m + 1]
  {
    assert ps == ps[..|ps| - 1] + [ps[|ps| - 1]];
  }

  /** The last step of a path that resolves only after add_file is a new subdirectory entry. */
  lemma LastStepIsNew(n0: seq<Node>, n1: seq<Node>, D: seq<string>, ps: seq<string>)
    requires Closed(n0) && |n0| > 0 && Closed(n1) && Grows(n0, n1) && NewEdgesOnPath(n0, n1, 0, D)
    requires Resolve(n1, 0, ps).Some? && Resolve(n0, 0, ps).None?
    ensures ps != [] && Resolve(n1, 0, ps[..|ps| - 1]).Some?
    ensures var j, k := Resolve(n1, 0, ps[..|ps| - 1]).value, ps[|ps| - 1];
      k in n1[j].subdirs && !(j < |n0| && k in n0[j].subdirs)
  {
    OnPathIsFresh(n0, n1, 0, D);
    if Resolve(n1, 0, ps).value < |n0| {
      ResolveOldNode(n0, n1, 0, ps);
      assert false;
    }
    var qs, k := ps[..|ps| - 1], ps[|ps| - 1];
    assert ps == qs + [k];
    ResolveSnoc(n1, 0, qs, k);
  }

  /**
   * One add_file call from the root, as the constructor makes it, extends
   * the meaning of the tree by one entry.
   */
  lemma AddFileMeaning(n0: seq<Node>, n1: seq<Node>, entries: seq<string>, path: string)
    requires Represents(n0, entries) && Added(n0, n1, 0, path, |entries|)
    ensures Represents(n1, entries + [path])
  {
    var D, F, es := Dirs(path), FileName(path), entries + [path];
    assert es[..|es| - 1] == entries && es[|es| - 1] == path;
    forall ps ensures DirMeaning(n1, es, ps) {
      DirsAfterAdd(n0, n1, D, ps);
      assert DirMeaning(n0, entries, ps);
      if Resolve(n1, 0, ps).Some? {
        var j := Resolve(n1, 0, ps).value;
        assert Resolve(n1, 0, D) == Some(j) <==> D == ps by {
          if Resolve(n1, 0, D) == Some(j) {
            ResolveInjective(n1, 0, D, ps);
          }
        }
        if Resolve(n0, 0, ps).Some? {
          ResolveGrows(n0, n1, 0, ps);
        } else {
          OnPathIsFresh(n0, n1, 0, D);
          if j < |n0| {
            ResolveOldNode(n0, n1, 0, ps);
          }
          forall f ensures FileIndex(entries, ps, f) == None {
            if FileIndex(entries, ps, f).Some? {
              FileIndexListed(entries, ps, f);
            }
          }
        }
      }
    }
  }
}
