/**
 * Entry names of an archive as src/gdir.cpp reads them: the `/`-separated
 * components that parsed_directory::add_file turns into directories and a
 * file, and the order std::map<std::string, ...> keeps its keys in.
 */
module ArchivePaths {
  import opened Wrappers

  // ---------------------------------------------------------------------------
  // std::string ordering

  /** a sorts strictly before b in std::string's lexicographic order (by character code). */
  predicate Below(a: string, b: string)
    decreases |a|
  {
    if a == [] then b != []
    else if b == [] then false
    else a[0] < b[0] || (a[0] == b[0] && Below(a[1..], b[1..]))
  }

  lemma {:induction false} BelowIrreflexive(a: string)
    ensures !Below(a, a)
    decreases |a|
  {
    if a != [] {
      BelowIrreflexive(a[1..]);
    }
  }

  lemma {:induction false} BelowTransitive(a: string, b: string, c: string)
    requires Below(a, b) && Below(b, c)
    ensures Below(a, c)
    decreases |a|
  {
    if a != [] && b != [] && c != [] && a[0] == b[0] == c[0] {
      BelowTransitive(a[1..], b[1..], c[1..]);
    }
  }

  lemma {:induction false} BelowTotal(a: string, b: string)
    ensures a == b || Below(a, b) || Below(b, a)
    decreases |a|
  {
    if a != [] && b != [] && a[0] == b[0] {
      BelowTotal(a[1..], b[1..]);
      if a[1..] == b[1..] {
        assert a == [a[0]] + a[1..] && b == [b[0]] + b[1..];
      }
    }
  }

  lemma BelowAsymmetric(a: string, b: string)
    requires Below(a, b)
    ensures !Below(b, a) && a != b
  {
    if Below(b, a) {
      BelowTransitive(a, b, a);
      BelowIrreflexive(a);
    }
    if a == b {
      BelowIrreflexive(a);
    }
  }

  /** m is the least element of ks. */
  predicate IsLeast(m: string, ks: set<string>) {
    m in ks && forall x :: x in ks && x != m ==> Below(m, x)
  }

  lemma {:induction false} LeastExists(ks: set<string>)
    requires ks != {}
    ensures exists m :: IsLeast(m, ks)
    decreases |ks|
  {
    var x :| x in ks;
    if ks != {x} {
      LeastExists(ks - {x});
      var m :| IsLeast(m, ks - {x});
      BelowTotal(m, x);
      if Below(m, x) {
        assert IsLeast(m, ks);
      } else {
        forall y | y in ks && y != x ensures Below(x, y) {
          if y != m {
            BelowTransitive(x, m, y);
          }
        }
        assert IsLeast(x, ks);
      }
    } else {
      assert IsLeast(x, ks);
    }
  }

  lemma LeastUnique(ks: set<string>)
    ensures forall a, b :: IsLeast(a, ks) && IsLeast(b, ks) ==> a == b
  {
    forall a, b | IsLeast(a, ks) && IsLeast(b, ks) ensures a == b {
      if a != b {
        BelowAsymmetric(a, b);
      }
    }
  }

  /** Strictly ascending: every key after another sorts after it. */
  predicate Ascending(s: seq<string>) {
    forall i, j {:trigger Below(s[i], s[j])} :: 0 <= i < j < |s| ==> Below(s[i], s[j])
  }

  /**
   * The keys of a std::map in iteration order: every key once, in strictly
   * ascending order.
   */
  function SortedKeys(ks: set<string>): (r: seq<string>)
    ensures |r| == |ks|
    ensures forall x :: x in ks <==> x in r
    ensures Ascending(r)
    decreases |ks|
  {
    if ks == {} then []
    else
      LeastExists(ks);
      LeastUnique(ks);
      var m :| IsLeast(m, ks);
      var rest := SortedKeys(ks - {m});
      LeastBeforeRest(m, ks, rest);
      [m] + rest
  }

  lemma LeastBeforeRest(m: string, ks: set<string>, rest: seq<string>)
    requires IsLeast(m, ks) && forall x :: x in ks - {m} <==> x in rest
    ensures forall j :: 0 <= j < |rest| ==> Below(m, rest[j])
  {
    forall j | 0 <= j < |rest| ensures Below(m, rest[j]) {
      assert rest[j] in rest;
    }
  }

  lemma EmptyTogether(s: seq<string>, t: seq<string>)
    requires forall x :: x in s <==> x in t
    ensures s == [] <==> t == []
  {
    if s != [] {
      assert s[0] in t;
    }
    if t != [] {
      assert t[0] in s;
    }
  }

  /** A strictly ascending sequence is determined by its elements. */
  lemma {:induction false} AscendingUnique(s: seq<string>, t: seq<string>)
    requires Ascending(s) && Ascending(t)
    requires forall x :: x in s <==> x in t
    ensures s == t
    decreases |s|
  {
    EmptyTogether(s, t);
    if s != [] {
      assert s[0] in t && t[0] in s;
      if s[0] != t[0] {
        var i :| 0 <= i < |t| && t[i] == s[0];
        var j :| 0 <= j < |s| && s[j] == t[0];
        assert Below(t[0], s[0]) && Below(s[0], t[0]);
        BelowAsymmetric(s[0], t[0]);
      }
      forall x ensures x in s[1..] <==> x in t[1..] {
        if x in s[1..] {
          var i :| 1 <= i < |s| && s[i] == x;
          BelowAsymmetric(s[0], x);
          assert x in t;
          var k :| 0 <= k < |t| && t[k] == x;
          assert t[1..][k - 1] == x;
        }
        if x in t[1..] {
          var i :| 1 <= i < |t| && t[i] == x;
          BelowAsymmetric(t[0], x);
          assert x in s;
          var k :| 0 <= k < |s| && s[k] == x;
          assert s[1..][k - 1] == x;
        }
      }
      AscendingUnique(s[1..], t[1..]);
      assert s == [s[0]] + s[1..] && t == [t[0]] + t[1..];
    }
  }

  // ---------------------------------------------------------------------------
  // Entry names

  /** The scan `for (s = path; *s && *s != '/'; ++s)`: the first `/`, or the end. */
  function Segment(path: string): (s: nat)
    ensures s <= |path|
    ensures s < |path| ==> path[s] == '/'
    ensures forall i :: 0 <= i < s ==> path[i] != '/'
  {
    if path == [] || path[0] == '/' then 0 else Segment(path[1..]) + 1
  }

  /** The directory components of an entry name: every non-empty component followed by a `/`. */
  function Dirs(path: string): (r: seq<string>)
    ensures forall i :: 0 <= i < |r| ==> r[i] != [] && '/' !in r[i]
    decreases |path|
  {
    var s := Segment(path);
    if s == |path| then []
    else (if s == 0 then [] else [path[..s]]) + Dirs(path[s + 1..])
  }

  /** The file component: the text after the last `/`, when it is not empty. */
  function FileName(path: string): (r: Option<string>)
    ensures r.Some? ==> r.value != [] && '/' !in r.value
    decreases |path|
  {
    var s := Segment(path);
    if s == |path| then (if s == 0 then None else Some(path))
    else FileName(path[s + 1..])
  }

  /** An entry name is its directory components and its file name, joined by `/`. */
  function Join(dirs: seq<string>, file: Option<string>): string {
    if dirs == [] then (if file.Some? then file.value else [])
    else dirs[0] + ['/'] + Join(dirs[1..], file)
  }

  lemma SegmentOfJoin(d: string, rest: string)
    requires d != [] && '/' !in d
    ensures Segment(d + ['/'] + rest) == |d|
    ensures (d + ['/'] + rest)[..|d|] == d && (d + ['/'] + rest)[|d| + 1..] == rest
  {
    var p := d + ['/'] + rest;
    forall i | 0 <= i < |d| ensures p[i] != '/' {
      assert p[i] == d[i];
    }
    assert p[|d|] == '/';
  }

  lemma SegmentOfPlain(f: string)
    requires '/' !in f
    ensures Segment(f) == |f|
  {
    forall i | 0 <= i < |f| ensures f[i] != '/' {
      assert f[i] in f;
    }
  }

  /**
   * Reading components back from a joined name gives the components: the
   * split of add_file inverts the join of non-empty, slash-free names.
   */
  lemma {:induction false} SplitJoin(dirs: seq<string>, file: Option<string>)
    requires forall i :: 0 <= i < |dirs| ==> dirs[i] != [] && '/' !in dirs[i]
    requires file.Some? ==> file.value != [] && '/' !in file.value
    ensures Dirs(Join(dirs, file)) == dirs
    ensures FileName(Join(dirs, file)) == file
    decreases |dirs|
  {
    if dirs == [] {
      if file.Some? {
        SegmentOfPlain(file.value);
      }
    } else {
      SegmentOfJoin(dirs[0], Join(dirs[1..], file));
      SplitJoin(dirs[1..], file);
    }
  }

  /** A leading `/`, as an empty first component, changes nothing. */
  lemma LeadingSlashSkipped(path: string)
    ensures Dirs(['/'] + path) == Dirs(path)
    ensures FileName(['/'] + path) == FileName(path)
  {
    assert (['/'] + path)[1..] == path;
  }

  /** A `/` after the end moves no earlier separator. */
  lemma SegmentOfSnoc(path: string)
    ensures Segment(path + ['/']) == Segment(path)
  {
    var p, s := path + ['/'], Segment(path);
    forall i | 0 <= i < s
      ensures p[i] != '/'
    {
      assert p[i] == path[i];
    }
    assert p[s] == '/';
  }

  /** A trailing `/` makes the last component a directory and leaves no file. */
  lemma {:induction false} TrailingSlashIsDirectory(path: string)
    ensures FileName(path + ['/']) == None
    ensures Dirs(path + ['/']) == Dirs(path) + (if FileName(path).Some? then [FileName(path).value] else [])
    decreases |path|
  {
    var p := path + ['/'];
    var s := Segment(path);
    SegmentOfSnoc(path);
    if s < |path| {
      assert p[s + 1..] == path[s + 1..] + ['/'];
      assert p[..s] == path[..s];
      TrailingSlashIsDirectory(path[s + 1..]);
    } else {
      assert p[s + 1..] == [];
      assert p[..s] == path;
    }
  }
}
