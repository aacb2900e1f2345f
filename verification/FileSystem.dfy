/**
 Walking, removing and copying directory trees on a remote file system (fs.py), for trees without
 symbolic links.
 */
module FsTree {
  import opened Bytes

  type Name = seq<byte>
  type Path = seq<Name>

  datatype Content = Directory | Regular(data: seq<byte>)

  type Tree = map<Path, Content>

  /** Everything but the root is in a directory. */
  ghost predicate IsTree(t: Tree) {
    forall p :: p in t && p != [] ==> p[..|p| - 1] in t && t[p[..|p| - 1]] == Directory
  }

  ghost predicate IsChild(t: Tree, dir: Path, p: Path) {
    p in t && |p| == |dir| + 1 && dir <= p
  }

  /** Strictly below. */
  predicate Below(dir: Path, p: Path) {
    dir <= p && |dir| < |p|
  }

  ghost function Subtree(t: Tree, dir: Path): set<Path> {
    set p | p in t && dir <= p
  }

  ghost function Descendants(t: Tree, dir: Path): set<Path> {
    set p | p in t && Below(dir, p)
  }

  /** What is below a directory is in one of its children. */
  lemma {:induction false} AncestorIsThere(t: Tree, dir: Path, p: Path, n: nat)
    requires IsTree(t) && p in t && |dir| <= n < |p|
    ensures p[..n] in t && t[p[..n]] == Directory
    decreases |p| - n
  {
    if n + 1 < |p| {
      AncestorIsThere(t, dir, p, n + 1);
      assert p[..n + 1][..n] == p[..n];
    }
  }

  // ---- The remote file system -----------------------------------------------------------------

  class Remote {
    var nodes: Tree
    /** The removals that have failed. */
    ghost var failures: nat

    constructor (nodes: Tree)
      ensures this.nodes == nodes && failures == 0
    {
      this.nodes := nodes;
      failures := 0;
    }

    /** scandir: the names in a directory, in some order; None stands for an error. */
    method Scandir(dir: Path) returns (names: Option<seq<Name>>)
      ensures names.Some? <==> dir in nodes && nodes[dir] == Directory
      ensures names.Some? ==> Lists(nodes, dir, names.value)
    {
      if dir !in nodes || nodes[dir] != Directory {
        return None;
      }
      var left := set p | p in nodes && |p| == |dir| + 1 && dir <= p;
      var got: seq<Name> := [];
      while left != {}
        invariant forall p :: p in left ==> IsChild(nodes, dir, p)
        invariant forall i, j :: 0 <= i < j < |got| ==> got[i] != got[j]
        invariant forall i :: 0 <= i < |got| ==> dir + [got[i]] !in left
        invariant forall p :: IsChild(nodes, dir, p) <==> p in left || exists i :: 0 <= i < |got| && p == dir + [got[i]]
        decreases left
      {
        var p :| p in left;
        assert p == dir + [p[|dir|]];
        ghost var before := got;
        got := got + [p[|dir|]];
        left := left - {p};
        assert forall i :: 0 <= i < |before| ==> got[i] == before[i];
        assert got[|before|] == p[|dir|];
      }
      return Some(got);
    }

    /** remove: it fails for what is not there and for a directory that is not empty. */
    method RemoveNode(p: Path) returns (ok: bool)
      modifies this
      ensures ok <==> p in old(nodes) && Descendants(old(nodes), p) == {}
      ensures nodes == if ok then old(nodes) - {p} else old(nodes)
      ensures failures == old(failures) + if ok then 0 else 1
    {
      ok := p in nodes && forall q :: q in nodes ==> !Below(p, q);
      assert ok ==> Descendants(nodes, p) == {};
      if !ok && p in nodes {
        var q :| q in nodes && Below(p, q);
        assert q in Descendants(nodes, p);
      }
      if ok {
        nodes := nodes - {p};
      } else {
        failures := failures + 1;
      }
    }

    /** mkdir: it fails if the path exists or its parent is not a directory. */
    method Mkdir(p: Path) returns (ok: bool)
      modifies this`nodes
      ensures ok <==> p !in old(nodes) && p != [] && p[..|p| - 1] in old(nodes) && old(nodes)[p[..|p| - 1]] == Directory
      ensures nodes == if ok then old(nodes)[p := Directory] else old(nodes)
    {
      ok := p !in nodes && p != [] && p[..|p| - 1] in nodes && nodes[p[..|p| - 1]] == Directory;
      if ok {
        nodes := nodes[p := Directory];
      }
    }

    /** write_bytes: it fails for a directory and where there is no directory to be in. */
    method WriteBytes(p: Path, data: seq<byte>) returns (ok: bool)
      modifies this`nodes
      ensures ok <==> p != [] && p[..|p| - 1] in old(nodes) && old(nodes)[p[..|p| - 1]] == Directory
                      && (p in old(nodes) ==> old(nodes)[p].Regular?)
      ensures nodes == if ok then old(nodes)[p := Regular(data)] else old(nodes)
    {
      ok := p != [] && p[..|p| - 1] in nodes && nodes[p[..|p| - 1]] == Directory && (p in nodes ==> nodes[p].Regular?);
      if ok {
        nodes := nodes[p := Regular(data)];
      }
    }
  }

  /** All names in a directory, each once. */
  ghost predicate Lists(t: Tree, dir: Path, names: seq<Name>) {
    && (forall i, j :: 0 <= i < j < |names| ==> names[i] != names[j])
    && (forall i :: 0 <= i < |names| ==> IsChild(t, dir, dir + [names[i]]))
    && (forall p :: IsChild(t, dir, p) ==> p[|dir|] in names)
  }

  // ---- The order of a traversal ---------------------------------------------------------------

  /** Every path comes after what is below it, or the other way round. */
  ghost predicate Ordered(paths: seq<Path>, topdown: bool) {
    forall i, j :: 0 <= i < j < |paths| ==> if topdown then !Below(paths[j], paths[i]) else !Below(paths[i], paths[j])
  }

  ghost predicate Distinct(paths: seq<Path>) {
    forall i, j :: 0 <= i < j < |paths| ==> paths[i] != paths[j]
  }

  /** The paths are the members of `s`, each once, in the order of a traversal. */
  ghost predicate Traverses(paths: seq<Path>, s: set<Path>, topdown: bool) {
    && Distinct(paths) && Ordered(paths, topdown)
    && forall p :: p in paths <==> p in s
  }

  /** Two traversals after each other. */
  lemma TraverseBoth(a: seq<Path>, b: seq<Path>, s: set<Path>, u: set<Path>, topdown: bool)
    requires Traverses(a, s, topdown) && Traverses(b, u, topdown) && s !! u
    requires forall p, q :: p in s && q in u ==> if topdown then !Below(q, p) else !Below(p, q)
    ensures Traverses(a + b, s + u, topdown)
  {
    forall i, j | 0 <= i < j < |a + b|
      ensures (a + b)[i] != (a + b)[j]
      ensures if topdown then !Below((a + b)[j], (a + b)[i]) else !Below((a + b)[i], (a + b)[j])
    {
      hide Below;
      assert i < |a| ==> a[i] in s;
      assert j >= |a| ==> b[j - |a|] in u;
    }
    hide Distinct, Ordered;
  }

  function JoinAll(dir: Path, names: seq<Name>): (r: seq<Path>)
    ensures |r| == |names|
    ensures forall i :: 0 <= i < |names| ==> r[i] == dir + [names[i]]
  {
    seq(|names|, i requires 0 <= i < |names| => dir + [names[i]])
  }

  // ---- walk and find --------------------------------------------------------------------------

  datatype Visit = Visit(root: Path, dirs: seq<Name>, files: seq<Name>)

  /** What find yields for one directory. */
  function Yielded(v: Visit): seq<Path> {
    JoinAll(v.root, v.files) + JoinAll(v.root, v.dirs)
  }

  function AllYielded(vs: seq<Visit>): seq<Path> {
    if vs == [] then [] else AllYielded(vs[..|vs| - 1]) + Yielded(vs[|vs| - 1])
  }

  lemma {:induction false} YieldedConcat(a: seq<Visit>, b: seq<Visit>)
    ensures AllYielded(a + b) == AllYielded(a) + AllYielded(b)
  {
    if b == [] {
      assert a + b == a;
    } else {
      assert (a + b)[..|a + b| - 1] == a + b[..|b| - 1];
      YieldedConcat(a, b[..|b| - 1]);
    }
  }

  lemma YieldedOne(v: Visit)
    ensures AllYielded([v]) == Yielded(v)
  {
    assert [v][..0] == [] && AllYielded([]) == [];
  }

  /** The directories and the other entries of a directory. */
  ghost predicate Partition(t: Tree, dir: Path, dirs: seq<Name>, files: seq<Name>) {
    && Lists(t, dir, files + dirs)
    && (forall d :: d in dirs ==> dir + [d] in t && t[dir + [d]] == Directory)
    && (forall f :: f in files ==> dir + [f] in t && t[dir + [f]].Regular?)
  }

  /** The first half of walk: scandir, and is_dir for every entry. */
  method ScanDirsAndFiles(fs: Remote, top: Path) returns (found: Option<(seq<Name>, seq<Name>)>)
    ensures found.Some? <==> top in fs.nodes && fs.nodes[top] == Directory
    ensures found.Some? ==> Partition(fs.nodes, top, found.value.0, found.value.1)
  {
    var entries := fs.Scandir(top);
    if entries.None? {
      return None;
    }
    var names := entries.value;
    var dirs: seq<Name>, files: seq<Name> := [], [];
    for i := 0 to |names|
      invariant forall n :: n in names[..i] <==> n in dirs || n in files
      invariant forall n :: n in files + dirs ==> n in names[..i]
      invariant forall k, l :: 0 <= k < l < |files + dirs| ==> (files + dirs)[k] != (files + dirs)[l]
      invariant forall d :: d in dirs ==> top + [d] in fs.nodes && fs.nodes[top + [d]] == Directory
      invariant forall f :: f in files ==> top + [f] in fs.nodes && fs.nodes[top + [f]].Regular?
    {
      assert names[..i + 1] == names[..i] + [names[i]];
      assert names[i] !in names[..i];
      if fs.nodes[top + [names[i]]] == Directory {
        assert files + (dirs + [names[i]]) == (files + dirs) + [names[i]];
        dirs := dirs + [names[i]];
      } else {
        InsertedDistinct(files, names[i], dirs);
        files := files + [names[i]];
      }
    }
    assert names[..|names|] == names;
    AllListed(fs.nodes, top, names, files + dirs);
    return Some((dirs, files));
  }

  lemma InsertedDistinct(a: seq<Name>, n: Name, b: seq<Name>)
    requires n !in a + b && forall k, l :: 0 <= k < l < |a + b| ==> (a + b)[k] != (a + b)[l]
    ensures forall k, l :: 0 <= k < l < |(a + [n]) + b| ==> ((a + [n]) + b)[k] != ((a + [n]) + b)[l]
  {
    var c := (a + [n]) + b;
    forall k, l | 0 <= k < l < |c|
      ensures c[k] != c[l]
    {
      var k', l' := if k <= |a| then k else k - 1, if l <= |a| then l else l - 1;
      if k != |a| && l != |a| { assert c[k] == (a + b)[k'] && c[l] == (a + b)[l']; }
      if k == |a| { assert c[l] == (a + b)[l']; }
      if l == |a| { assert c[k] == (a + b)[k']; }
    }
  }

  lemma AllListed(t: Tree, dir: Path, names: seq<Name>, others: seq<Name>)
    requires Lists(t, dir, names) && (forall n :: n in names <==> n in others)
    requires forall k, l :: 0 <= k < l < |others| ==> others[k] != others[l]
    ensures Lists(t, dir, others)
  {
    forall i | 0 <= i < |others|
      ensures IsChild(t, dir, dir + [others[i]])
    {
      assert others[i] in names;
    }
  }

  /** What is below the entries `names` of a directory. */
  ghost function Deep(t: Tree, dir: Path, names: seq<Name>): set<Path> {
    set p | p in t && dir <= p && |p| > |dir| + 1 && p[|dir|] in names
  }

  ghost function Children(t: Tree, dir: Path): set<Path> {
    set p | p in t && IsChild(t, dir, p)
  }

  lemma DeepStep(t: Tree, dir: Path, names: seq<Name>, d: Name)
    requires d !in names
    ensures Deep(t, dir, names + [d]) == Deep(t, dir, names) + Descendants(t, dir + [d])
    ensures Deep(t, dir, names) !! Descendants(t, dir + [d])
    ensures forall p, q :: p in Deep(t, dir, names) && q in Descendants(t, dir + [d]) ==> !Below(p, q) && !Below(q, p)
  {
    forall p | p in t
      ensures p in Descendants(t, dir + [d]) <==> dir <= p && |p| > |dir| + 1 && p[|dir|] == d
    {
      if dir <= p && |p| > |dir| + 1 && p[|dir|] == d { assert p[..|dir| + 1] == dir + [d]; }
    }
  }

  lemma DescendantsAre(t: Tree, dir: Path, dirs: seq<Name>, files: seq<Name>)
    requires IsTree(t) && Partition(t, dir, dirs, files)
    ensures Descendants(t, dir) == Children(t, dir) + Deep(t, dir, dirs)
    ensures Children(t, dir) !! Deep(t, dir, dirs)
    ensures forall p, q :: p in Children(t, dir) && q in Deep(t, dir, dirs) ==> !Below(q, p)
  {
    forall p | p in t && Below(dir, p) && |p| > |dir| + 1
      ensures p[|dir|] in dirs
    {
      AncestorIsThere(t, dir, p, |dir| + 1);
      var c := p[..|dir| + 1];
      assert IsChild(t, dir, c) && c == dir + [p[|dir|]];
      assert c[|dir|] in files + dirs;
    }
  }

  lemma OwnTraversed(t: Tree, dir: Path, dirs: seq<Name>, files: seq<Name>, topdown: bool)
    requires Partition(t, dir, dirs, files)
    ensures Traverses(Yielded(Visit(dir, dirs, files)), Children(t, dir), topdown)
  {
    var names := files + dirs;
    var paths := Yielded(Visit(dir, dirs, files));
    assert paths == JoinAll(dir, names);
    hide Yielded;
    forall i, j | 0 <= i < j < |paths|
      ensures paths[i] != paths[j]
    {
      assert paths[i][|dir|] == names[i] && paths[j][|dir|] == names[j];
    }
    forall p
      ensures p in paths <==> p in Children(t, dir)
    {
      if p in Children(t, dir) {
        assert p[|dir|] in names;
        var i :| 0 <= i < |names| && names[i] == p[|dir|];
        assert paths[i] == p;
      }
    }
  }

  lemma FewerBelow(t: Tree, dir: Path, d: Name)
    requires dir + [d] in t
    ensures |Descendants(t, dir + [d])| < |Descendants(t, dir)|
  {
    assert dir + [d] in Descendants(t, dir) && dir + [d] !in Descendants(t, dir + [d]);
    Smaller(Descendants(t, dir + [d]), Descendants(t, dir));
  }

  lemma Smaller<T>(a: set<T>, b: set<T>)
    requires a < b
    ensures |a| < |b|
  {
    var x :| x in b && x !in a;
    assert a <= b - {x};
    Within(a, b - {x});
  }

  lemma {:induction false} Within<T>(a: set<T>, b: set<T>)
    requires a <= b
    ensures |a| <= |b|
  {
    if a != {} {
      var x :| x in a;
      Within(a - {x}, b - {x});
    }
  }

  /** walk: a directory before its subdirectories, or after them. */
  method Walk(fs: Remote, top: Path, topdown: bool) returns (visits: Option<seq<Visit>>)
    requires IsTree(fs.nodes)
    ensures visits.Some? <==> top in fs.nodes && fs.nodes[top] == Directory
    ensures visits.Some? ==> Traverses(AllYielded(visits.value), Descendants(fs.nodes, top), topdown)
    decreases |Descendants(fs.nodes, top)|
  {
    hide Traverses, IsTree, Partition, AllYielded, Yielded, Deep, Descendants, Children, Below;
    var found := ScanDirsAndFiles(fs, top);
    if found.None? {
      return None;
    }
    var (dirs, files) := found.value;
    ghost var t := fs.nodes;
    PartitionFacts(t, top, dirs, files);
    var below: seq<Visit> := [];
    NothingDeep(t, top, topdown);
    for i := 0 to |dirs|
      invariant Traverses(AllYielded(below), Deep(t, top, dirs[..i]), topdown)
    {
      FewerBelow(t, top, dirs[i]);
      var sub := Walk(fs, top + [dirs[i]], topdown);
      DeepStep(t, top, dirs[..i], dirs[i]);
      assert dirs[..i + 1] == dirs[..i] + [dirs[i]];
      YieldedConcat(below, sub.value);
      TraverseBoth(AllYielded(below), AllYielded(sub.value), Deep(t, top, dirs[..i]), Descendants(t, top + [dirs[i]]), topdown);
      below := below + sub.value;
    }
    assert dirs[..|dirs|] == dirs;
    var own := Visit(top, dirs, files);
    YieldedOne(own);
    OwnTraversed(t, top, dirs, files, topdown);
    DescendantsAre(t, top, dirs, files);
    if topdown {
      YieldedConcat([own], below);
      TraverseBoth(Yielded(own), AllYielded(below), Children(t, top), Deep(t, top, dirs), topdown);
      visits := Some([own] + below);
    } else {
      YieldedConcat(below, [own]);
      assert Deep(t, top, dirs) + Children(t, top) == Descendants(t, top);
      TraverseBoth(AllYielded(below), Yielded(own), Deep(t, top, dirs), Children(t, top), topdown);
      visits := Some(below + [own]);
    }
  }

  lemma PartitionFacts(t: Tree, dir: Path, dirs: seq<Name>, files: seq<Name>)
    requires Partition(t, dir, dirs, files)
    ensures forall i :: 0 <= i < |dirs| ==> dir + [dirs[i]] in t && t[dir + [dirs[i]]] == Directory && dirs[i] !in dirs[..i]
    ensures forall i :: 0 <= i < |files| ==> dir + [files[i]] in t && t[dir + [files[i]]].Regular?
  {
    forall i | 0 <= i < |dirs|
      ensures dirs[i] !in dirs[..i]
    {
      assert (files + dirs)[|files| + i] == dirs[i];
      assert forall k :: 0 <= k < i ==> (files + dirs)[|files| + k] == dirs[k];
    }
  }

  lemma NothingDeep(t: Tree, dir: Path, topdown: bool)
    ensures Traverses(AllYielded([]), Deep(t, dir, []), topdown)
  {}

  /** find: every path of the subtree once, parents first or last. */
  method Find(fs: Remote, top: Path, topdown: bool) returns (paths: Option<seq<Path>>)
    requires IsTree(fs.nodes)
    ensures paths.Some? <==> top in fs.nodes && fs.nodes[top] == Directory
    ensures paths.Some? ==> Traverses(paths.value, Subtree(fs.nodes, top), topdown)
  {
    hide Traverses, IsTree;
    if topdown && top !in fs.nodes {
      return None;
    }
    var visits := Walk(fs, top, topdown);
    if visits.None? {
      return None;
    }
    var below: seq<Path> := [];
    for i := 0 to |visits.value|
      invariant below == AllYielded(visits.value[..i])
    {
      assert visits.value[..i + 1][..i] == visits.value[..i];
      below := below + Yielded(visits.value[i]);
    }
    assert visits.value[..|visits.value|] == visits.value;
    TopTraversed(fs.nodes, top, topdown);
    if topdown {
      assert {top} + Descendants(fs.nodes, top) == Subtree(fs.nodes, top);
      TraverseBoth([top], below, {top}, Descendants(fs.nodes, top), topdown);
      paths := Some([top] + below);
    } else {
      assert Descendants(fs.nodes, top) + {top} == Subtree(fs.nodes, top);
      TraverseBoth(below, [top], Descendants(fs.nodes, top), {top}, topdown);
      paths := Some(below + [top]);
    }
  }

  lemma TopTraversed(t: Tree, top: Path, topdown: bool)
    requires top in t
    ensures Traverses([top], {top}, topdown)
    ensures {top} !! Descendants(t, top) && {top} + Descendants(t, top) == Subtree(t, top)
  {
    forall p | p in t && top <= p
      ensures p == top || Below(top, p)
    {
      if |p| == |top| { assert p[..|top|] == p; }
    }
  }

  // ---- remove ---------------------------------------------------------------------------------

  /** Removing what is closed downwards leaves a tree. */
  lemma StillTree(t: Tree, s: set<Path>)
    requires IsTree(t) && forall p :: p in t && p != [] && p[..|p| - 1] in s ==> p in s
    ensures IsTree(t - s)
  {}

  lemma SubtreeIsClosed(t: Tree, dir: Path)
    requires IsTree(t)
    ensures IsTree(t - Subtree(t, dir))
  {
    StillTree(t, Subtree(t, dir));
  }

  lemma DeepIsClosed(t: Tree, dir: Path, names: seq<Name>)
    ensures forall p :: p in t && p != [] && p[..|p| - 1] in Deep(t, dir, names) ==> p in Deep(t, dir, names)
  {}

  /** What is below an entry does not change when other entries are emptied. */
  lemma OthersEmptied(t: Tree, dir: Path, names: seq<Name>, d: Name)
    requires IsTree(t) && d !in names && dir + [d] in t && t[dir + [d]] == Directory
    ensures var t' := t - Deep(t, dir, names);
            && IsTree(t') && dir + [d] in t' && t'[dir + [d]] == Directory
            && Descendants(t', dir + [d]) == Descendants(t, dir + [d])
            && t' - Descendants(t, dir + [d]) == t - Deep(t, dir, names + [d])
  {
    DeepIsClosed(t, dir, names);
    StillTree(t, Deep(t, dir, names));
    hide IsTree;
    DeepStep(t, dir, names, d);
    DescendantsKept(t, dir, names, d);
  }

  lemma DescendantsKept(t: Tree, dir: Path, names: seq<Name>, d: Name)
    requires d !in names
    ensures Descendants(t - Deep(t, dir, names), dir + [d]) == Descendants(t, dir + [d])
    ensures dir + [d] !in Deep(t, dir, names)
  {
    DeepStep(t, dir, names, d);
  }

  /** Once the directories are empty, the entries can be removed one after the other. */
  lemma EntryIsEmpty(t: Tree, dir: Path, dirs: seq<Name>, files: seq<Name>, gone: set<Path>, name: Name)
    requires IsTree(t) && Partition(t, dir, dirs, files) && name in files + dirs
    requires dir + [name] !in gone
    ensures Descendants(t - Deep(t, dir, dirs) - gone, dir + [name]) == {}
    ensures dir + [name] in t - Deep(t, dir, dirs) - gone
  {
    hide IsTree, Partition;
    EntryIsThere(t, dir, dirs, files, name);
    if Descendants(t, dir + [name]) != {} {
      var p :| p in Descendants(t, dir + [name]);
      ParentOfIsDirectory(t, dir + [name], p);
      DirectoryIsListed(t, dir, dirs, files, name);
    }
    forall p | p in t && Below(dir + [name], p)
      ensures p in Deep(t, dir, dirs)
    {
      assert p in Descendants(t, dir + [name]);
      assert p[|dir|] == name;
    }
  }

  lemma EntryIsThere(t: Tree, dir: Path, dirs: seq<Name>, files: seq<Name>, name: Name)
    requires Partition(t, dir, dirs, files) && name in files + dirs
    ensures dir + [name] in t
  {}

  lemma DirectoryIsListed(t: Tree, dir: Path, dirs: seq<Name>, files: seq<Name>, name: Name)
    requires Partition(t, dir, dirs, files) && name in files + dirs && dir + [name] in t && t[dir + [name]] == Directory
    ensures name in dirs
  {}

  /** The children that were removed first. */
  ghost function FirstChildren(dir: Path, names: seq<Name>, n: nat): set<Path>
    requires n <= |names|
  {
    set i | 0 <= i < n :: dir + [names[i]]
  }

  lemma AllChildren(t: Tree, dir: Path, dirs: seq<Name>, files: seq<Name>)
    requires IsTree(t) && Partition(t, dir, dirs, files)
    ensures var names := files + dirs;
            t - Deep(t, dir, dirs) - FirstChildren(dir, names, |names|) == t - Descendants(t, dir)
  {
    ChildrenAreListed(t, dir, dirs, files);
    DescendantsAre(t, dir, dirs, files);
    hide IsTree, Partition, Deep, Children, FirstChildren, Descendants;
  }

  lemma ChildrenAreListed(t: Tree, dir: Path, dirs: seq<Name>, files: seq<Name>)
    requires Partition(t, dir, dirs, files)
    ensures FirstChildren(dir, files + dirs, |files + dirs|) == Children(t, dir)
  {
    var names := files + dirs;
    forall p | p in Children(t, dir)
      ensures p in FirstChildren(dir, names, |names|)
    {
      assert p[|dir|] in names;
      var i :| 0 <= i < |names| && names[i] == p[|dir|];
      assert p == dir + [names[i]];
    }
  }

  lemma NextChild(t: Tree, dir: Path, dirs: seq<Name>, files: seq<Name>, n: nat)
    requires IsTree(t) && Partition(t, dir, dirs, files) && n < |files + dirs|
    ensures var names := files + dirs;
            var left := t - Deep(t, dir, dirs) - FirstChildren(dir, names, n);
            && dir + [names[n]] in left && Descendants(left, dir + [names[n]]) == {}
            && left - {dir + [names[n]]} == t - Deep(t, dir, dirs) - FirstChildren(dir, names, n + 1)
  {
    var names := files + dirs;
    forall i | 0 <= i < n
      ensures dir + [names[i]] != dir + [names[n]]
    {
      assert (dir + [names[i]])[|dir|] == names[i] && (dir + [names[n]])[|dir|] == names[n];
    }
    EntryIsEmpty(t, dir, dirs, files, FirstChildren(dir, names, n), names[n]);
  }

  /**
   The loop of remove over find bottom-up, while the traversal goes on: everything below `top` goes,
   and no removal fails, so each is of a file or of a directory that is empty by then.
   */
  method RemoveBelow(fs: Remote, top: Path, force: bool) returns (ok: bool)
    requires IsTree(fs.nodes) && top in fs.nodes && fs.nodes[top] == Directory
    modifies fs
    ensures ok && fs.nodes == old(fs.nodes) - Descendants(old(fs.nodes), top)
    ensures fs.failures == old(fs.failures)
    decreases |Descendants(fs.nodes, top)|
  {
    hide IsTree, Partition, Deep, Descendants, Below;
    ghost var t := fs.nodes;
    var found := ScanDirsAndFiles(fs, top);
    var (dirs, files) := found.value;
    PartitionFacts(t, top, dirs, files);
    NothingEmptied(t, top);
    for i := 0 to |dirs|
      invariant fs.nodes == t - Deep(t, top, dirs[..i]) && fs.failures == old(fs.failures)
    {
      FewerBelow(t, top, dirs[i]);
      OthersEmptied(t, top, dirs[..i], dirs[i]);
      assert dirs[..i + 1] == dirs[..i] + [dirs[i]];
      ok := RemoveBelow(fs, top + [dirs[i]], force);
    }
    assert dirs[..|dirs|] == dirs;
    ok := RemoveEntries(fs, top, dirs, files, force, t);
  }

  /** The paths that find yields for one directory, when everything deeper has gone. */
  method RemoveEntries(fs: Remote, top: Path, dirs: seq<Name>, files: seq<Name>, force: bool, ghost t: Tree) returns (ok: bool)
    requires IsTree(t) && Partition(t, top, dirs, files) && fs.nodes == t - Deep(t, top, dirs)
    modifies fs
    ensures ok && fs.nodes == t - Descendants(t, top) && fs.failures == old(fs.failures)
  {
    hide IsTree, Partition, Deep, Descendants, FirstChildren;
    var paths := Yielded(Visit(top, dirs, files));
    ghost var names := files + dirs;
    NoChildren(t - Deep(t, top, dirs), top, names);
    for i := 0 to |paths|
      invariant fs.nodes == t - Deep(t, top, dirs) - FirstChildren(top, names, i) && fs.failures == old(fs.failures)
    {
      assert paths[i] == top + [names[i]];
      NextChild(t, top, dirs, files, i);
      ok := fs.RemoveNode(paths[i]);
      if !ok && !force {
        return;
      }
    }
    AllChildren(t, top, dirs, files);
    ok := true;
  }

  lemma NothingEmptied(t: Tree, dir: Path)
    ensures t - Deep(t, dir, []) == t
  {}

  lemma NoChildren(t: Tree, dir: Path, names: seq<Name>)
    ensures t - FirstChildren(dir, names, 0) == t
  {}

  /** remove: exactly the subtree, or just the one path; false stands for a raised error. */
  method Remove(fs: Remote, path: Path, recursive: bool, force: bool) returns (ok: bool)
    requires IsTree(fs.nodes)
    modifies fs
    ensures recursive && path !in old(fs.nodes) ==> !ok && fs.nodes == old(fs.nodes)
    ensures recursive && path in old(fs.nodes) ==> ok && fs.nodes == old(fs.nodes) - Subtree(old(fs.nodes), path)
    ensures recursive ==> fs.failures == old(fs.failures)
    ensures recursive ==> IsTree(fs.nodes)
    ensures !recursive ==>
              var removable := path in old(fs.nodes) && Descendants(old(fs.nodes), path) == {};
              && ok == (removable || force)
              && fs.nodes == if removable then old(fs.nodes) - {path} else old(fs.nodes)
  {
    ghost var t := fs.nodes;
    SubtreeIsClosed(t, path);
    if recursive && path !in fs.nodes {
      return false; // is_file raises
    }
    if !recursive || fs.nodes[path].Regular? {
      if path in fs.nodes && fs.nodes[path].Regular? { FilesAreLeaves(t, path); }
      ok := fs.RemoveNode(path);
      return ok || force;
    }
    ok := RemoveBelow(fs, path, force);
    TopTraversed(t, path, false);
    LastOne(t, path);
    ok := fs.RemoveNode(path);
  }

  lemma FilesAreLeaves(t: Tree, p: Path)
    requires IsTree(t) && p in t && t[p].Regular?
    ensures Descendants(t, p) == {} && Subtree(t, p) == {p}
  {
    OnlyDirectoriesHaveDescendants(t, p);
    TopTraversed(t, p, false);
  }

  lemma OnlyDirectoriesHaveDescendants(t: Tree, p: Path)
    requires IsTree(t) && p in t
    ensures forall q :: q in t && Below(p, q) ==> t[p] == Directory
  {
    forall q | q in t && Below(p, q)
      ensures t[p] == Directory
    {
      ParentOfIsDirectory(t, p, q);
    }
  }

  lemma ParentOfIsDirectory(t: Tree, p: Path, q: Path)
    requires IsTree(t) && q in t && Below(p, q)
    ensures p in t && t[p] == Directory
  {
    AncestorIsThere(t, p, q, |p|);
    assert q[..|p|] == p;
  }

  lemma LastOne(t: Tree, p: Path)
    requires p in t
    ensures Descendants(t - Descendants(t, p), p) == {} && p in t - Descendants(t, p)
    ensures t - Descendants(t, p) - {p} == t - Subtree(t, p)
  {
    TopTraversed(t, p, false);
  }
}

/** cp of a file or a directory tree between two file systems, and File.write (fs.py). */
module FsCopy {
  import opened Bytes
  import opened FsTree

  /** What copying leaves at `q` for source path `p`: existing files stay unless forced. */
  ghost function Wanted(src: Tree, p: Path, old_: Tree, q: Path, force: bool): Content
    requires p in src
  {
    if q in old_ && (!force || src[p] == Directory) then old_[q] else src[p]
  }

  /** The paths in `done` have been copied from below `source` to below `dest`, and nothing else has changed. */
  ghost predicate CopiedSet(src: Tree, source: Path, before: Tree, dest: Path, force: bool, done: set<Path>, after: Tree) {
    && (forall p :: p in done ==> p in src)
    && forall q: Path :: CopiedAt(src, source, before, dest, force, done, after, q)
  }

  ghost predicate CopiedAt(src: Tree, source: Path, before: Tree, dest: Path, force: bool, done: set<Path>, after: Tree, q: Path)
    requires forall p :: p in done ==> p in src
  {
    if dest <= q && source + q[|dest|..] in done then
      q in after && after[q] == Wanted(src, source + q[|dest|..], before, q, force)
    else Unchanged(before, after, q)
  }

  ghost predicate Unchanged(before: Tree, after: Tree, q: Path) {
    (q in after <==> q in before) && (q in before ==> after[q] == before[q])
  }

  ghost predicate HasChild(t: Tree, p: Path) {
    exists name: Name :: p + [name] in t
  }

  /** Copying `p` to `q` raises: a directory with entries over a file, or, if forced, a file over a directory. */
  ghost predicate Clashes(src: Tree, p: Path, dst: Tree, q: Path, force: bool)
    requires p in src
  {
    q in dst && if src[p] == Directory then dst[q].Regular? && HasChild(src, p) else force && dst[q] == Directory
  }

  ghost predicate NoClash(src: Tree, source: Path, dst: Tree, dest: Path, force: bool) {
    forall p :: p in src && source <= p ==> !Clashes(src, p, dst, dest + p[|source|..], force)
  }

  /** Nothing has changed but paths that have become copies of paths of the source. */
  ghost predicate OnlyCopies(src: Tree, source: Path, before: Tree, dest: Path, after: Tree) {
    forall q: Path :: Unchanged(before, after, q) || IsCopy(src, source, dest, after, q)
  }

  ghost predicate IsCopy(src: Tree, source: Path, dest: Path, after: Tree, q: Path) {
    dest <= q && source + q[|dest|..] in src && q in after && after[q] == src[source + q[|dest|..]]
  }

  /** No path of the source is copied into the source. */
  ghost predicate Apart(t: Tree, source: Path, dest: Path) {
    forall p :: p in t && source <= p ==> !(source <= dest + p[|source|..])
  }

  /** So it is exactly if the destination is not inside the source, nor the source where a copy of it would be. */
  lemma ApartExactly(t: Tree, source: Path, dest: Path)
    requires IsTree(t) && source in t
    ensures Apart(t, source, dest) <==> !(source <= dest) && (dest <= source ==> source + source[|dest|..] !in t)
  {
    assert source[|source|..] == [] && dest + [] == dest;
    if Apart(t, source, dest) && dest <= source {
      var p := source + source[|dest|..];
      assert p[|source|..] == source[|dest|..] && dest + source[|dest|..] == source;
    }
    if !(source <= dest) && (dest <= source ==> source + source[|dest|..] !in t) {
      forall p | p in t && source <= p
        ensures !(source <= dest + p[|source|..])
      {
        if source <= dest + p[|source|..] { InsideItself(t, source, dest, p); }
      }
    }
  }

  lemma InsideItself(t: Tree, source: Path, dest: Path, p: Path)
    requires IsTree(t) && p in t && source <= p && source <= dest + p[|source|..] && !(source <= dest)
    ensures dest <= source && source + source[|dest|..] in t
  {
    var q := dest + p[|source|..];
    EitherPrefix(source, dest, p[|source|..]);
    var r := source[|dest|..];
    assert p[|source|..][..|r|] == r by { assert q[..|source|] == source; assert q[|dest|..] == p[|source|..]; }
    assert source + r <= p by { assert p == source + p[|source|..]; }
    PrefixIsThere(t, source + r, p);
  }

  lemma EitherPrefix(a: Path, b: Path, rest: Path)
    requires a <= b + rest
    ensures a <= b || b <= a
  {
    if |a| <= |b| { assert (b + rest)[..|a|] == b[..|a|]; } else { assert (b + rest)[..|b|] == a[..|b|]; }
  }

  /** The two trees are the same at and below `source`. */
  ghost predicate SameBelow(source: Path, s: Tree, t: Tree) {
    forall p: Path :: source <= p ==> Unchanged(s, t, p)
  }

  /** Copying within one file system leaves the source as it is. */
  lemma SourceStays(s: Tree, source: Path, before: Tree, dest: Path, after: Tree)
    requires SameBelow(source, s, before) && OnlyCopies(s, source, before, dest, after) && Apart(s, source, dest)
    ensures SameBelow(source, s, after)
  {
    hide Apart;
    forall p: Path | source <= p
      ensures Unchanged(s, after, p)
    {
      assert Unchanged(s, before, p);
      assert Unchanged(before, after, p) || IsCopy(s, source, dest, after, p);
      NoCopyInside(s, source, dest, after, p);
    }
  }

  lemma NoCopyInside(s: Tree, source: Path, dest: Path, after: Tree, p: Path)
    requires Apart(s, source, dest) && source <= p
    ensures !IsCopy(s, source, dest, after, p)
  {
    if dest <= p {
      var p' := source + p[|dest|..];
      assert p'[|source|..] == p[|dest|..] && dest + p[|dest|..] == p;
    }
  }

  /** One copying after another, of other paths. */
  lemma CopiedBoth(src: Tree, source: Path, before: Tree, dest: Path, force: bool, a: set<Path>, mid: Tree, b: set<Path>, after: Tree)
    requires CopiedSet(src, source, before, dest, force, a, mid) && CopiedSet(src, source, mid, dest, force, b, after)
    requires a !! b
    ensures CopiedSet(src, source, before, dest, force, a + b, after)
  {
    forall q: Path
      ensures CopiedAt(src, source, before, dest, force, a + b, after, q)
    {
      assert CopiedAt(src, source, before, dest, force, a, mid, q);
      assert CopiedAt(src, source, mid, dest, force, b, after, q);
    }
  }

  /** Copying a child is part of copying its directory. */
  lemma Rebased(src: Tree, source: Path, before: Tree, dest: Path, force: bool, name: Name, after: Tree)
    requires CopiedSet(src, source + [name], before, dest + [name], force, Subtree(src, source + [name]), after)
    ensures CopiedSet(src, source, before, dest, force, Subtree(src, source + [name]), after)
  {
    var done := Subtree(src, source + [name]);
    forall q: Path
      ensures CopiedAt(src, source, before, dest, force, done, after, q)
    {
      assert CopiedAt(src, source + [name], before, dest + [name], force, done, after, q);
      if dest <= q { UnderChild(source, dest, name, q); }
    }
  }

  lemma UnderChild(source: Path, dest: Path, name: Name, q: Path)
    requires dest <= q
    ensures source + [name] <= source + q[|dest|..] <==> dest + [name] <= q
    ensures dest + [name] <= q ==> source + q[|dest|..] == (source + [name]) + q[|dest| + 1..]
  {
    if |q| > |dest| {
      assert q[..|dest| + 1] == dest + [q[|dest|]];
      assert (source + q[|dest|..])[..|source| + 1] == source + [q[|dest|]];
      assert source + [q[|dest|]] == source + [name] <==> q[|dest|] == name by {
        assert (source + [q[|dest|]])[|source|] == q[|dest|] && (source + [name])[|source|] == name;
      }
    }
  }

  /** The paths of a directory whose children in `names` have been copied. */
  ghost function Part(src: Tree, source: Path, names: seq<Name>): set<Path> {
    set p | p in src && source <= p && (p == source || p[|source|] in names)
  }

  lemma PartStep(src: Tree, source: Path, names: seq<Name>, name: Name)
    requires name !in names
    ensures Part(src, source, names + [name]) == Part(src, source, names) + Subtree(src, source + [name])
    ensures Part(src, source, names) !! Subtree(src, source + [name])
  {
    forall p | p in src
      ensures p in Subtree(src, source + [name]) <==> source <= p && p != source && p[|source|] == name
    {
      if source <= p && p != source {
        assert p[..|source| + 1] == source + [p[|source|]];
      }
    }
  }

  lemma PartIsAll(src: Tree, source: Path, names: seq<Name>)
    requires IsTree(src) && Lists(src, source, names)
    ensures Part(src, source, names) == Subtree(src, source)
  {
    forall p | p in Subtree(src, source) && p != source
      ensures p[|source|] in names
    {
      var c := p[..|source| + 1];
      if |p| > |source| + 1 { AncestorIsThere(src, source, p, |source| + 1); } else { assert c == p; }
      assert IsChild(src, source, c);
    }
  }

  /** Where other paths are copied to nothing has changed. */
  lemma StillThere(src: Tree, source: Path, before: Tree, dest: Path, force: bool, done: set<Path>, mid: Tree, p: Path)
    requires CopiedSet(src, source, before, dest, force, done, mid) && source <= p && p !in done
    ensures Unchanged(before, mid, dest + p[|source|..])
  {
    var q := dest + p[|source|..];
    assert q[|dest|..] == p[|source|..] && source + q[|dest|..] == p;
    assert CopiedAt(src, source, before, dest, force, done, mid, q);
  }

  /** What has not been copied yet clashes as it did before. */
  lemma StillClashes(src: Tree, source: Path, before: Tree, dest: Path, force: bool, done: set<Path>, mid: Tree, name: Name)
    requires CopiedSet(src, source, before, dest, force, done, mid)
    requires done !! Subtree(src, source + [name])
    ensures NoClash(src, source + [name], mid, dest + [name], force)
       <==> forall p :: p in src && source + [name] <= p ==> !Clashes(src, p, before, dest + p[|source|..], force)
  {
    forall p | p in src && source + [name] <= p
      ensures Clashes(src, p, mid, dest + [name] + p[|source| + 1..], force)
         <==> Clashes(src, p, before, dest + p[|source|..], force)
    {
      assert p[|source|..] == [name] + p[|source| + 1..] && dest + p[|source|..] == dest + [name] + p[|source| + 1..];
      assert p in Subtree(src, source + [name]);
      StillThere(src, source, before, dest, force, done, mid, p);
    }
  }

  /** mkdir of the destination, or finding it there. */
  lemma TopCopied(src: Tree, source: Path, before: Tree, dest: Path, force: bool, after: Tree)
    requires source in src && src[source] == Directory
    requires after == if dest in before then before else before[dest := Directory]
    ensures CopiedSet(src, source, before, dest, force, Part(src, source, []), after)
    ensures OnlyCopies(src, source, before, dest, after)
  {
    assert source[|source|..] == [] && dest + [] == dest && dest[|dest|..] == [] && source + [] == source;
    assert Part(src, source, []) == {source};
    forall q: Path
      ensures CopiedAt(src, source, before, dest, force, {source}, after, q)
    {
      if dest <= q && source + q[|dest|..] == source {
        assert |q| == |dest|;
        assert q == dest;
      } else if q == dest {
        assert q[|dest|..] == [] && source + [] == source;
      }
    }
  }

  /** A single file. */
  lemma FileCopied(src: Tree, source: Path, name: Name, before: Tree, dest: Path, force: bool, after: Tree)
    requires IsTree(src) && source + [name] in src && src[source + [name]].Regular?
    requires var q := dest + [name];
             after == if q in before && !force then before else before[q := src[source + [name]]]
    ensures CopiedSet(src, source, before, dest, force, Subtree(src, source + [name]), after)
  {
    var p0 := source + [name];
    FilesAreLeaves(src, p0);
    forall q: Path
      ensures CopiedAt(src, source, before, dest, force, {p0}, after, q)
    {
      if q == dest + [name] { assert q[|dest|..] == [name]; }
      if dest <= q && source + q[|dest|..] == p0 {
        assert p0[|source|..] == [name];
        assert (source + q[|dest|..])[|source|..] == q[|dest|..];
        assert q == dest + q[|dest|..];
      }
    }
  }

  ghost predicate CanHold(t: Tree, p: Path) {
    p in t || (p != [] && p[..|p| - 1] in t && t[p[..|p| - 1]] == Directory)
  }

  /** What a directory or a file is added to stays a tree. */
  lemma StaysTree(t: Tree, p: Path, c: Content)
    requires IsTree(t) && p != [] && p[..|p| - 1] in t && t[p[..|p| - 1]] == Directory && (p in t ==> t[p].Regular?)
    ensures IsTree(t[p := c])
  {}

  lemma Sublists(s: Tree, t: Tree, source: Path, names: seq<Name>)
    requires SameBelow(source, s, t) && Lists(t, source, names)
    ensures Lists(s, source, names)
  {
    forall p
      ensures IsChild(s, source, p) <==> IsChild(t, source, p)
    {
      if source <= p { assert Unchanged(s, t, p); }
    }
  }

  /** The paths copied so far do not clash. */
  ghost predicate PartClear(src: Tree, source: Path, before: Tree, dest: Path, force: bool, names: seq<Name>) {
    forall p :: p in src && source <= p && p != source && p[|source|] in names
      ==> !Clashes(src, p, before, dest + p[|source|..], force)
  }

  lemma PartClearStep(src: Tree, source: Path, before: Tree, dest: Path, force: bool, names: seq<Name>, name: Name)
    requires PartClear(src, source, before, dest, force, names)
    requires forall p :: p in src && source + [name] <= p ==> !Clashes(src, p, before, dest + p[|source|..], force)
    ensures PartClear(src, source, before, dest, force, names + [name])
  {
    forall p | p in src && source <= p && p != source && p[|source|] == name
      ensures source + [name] <= p
    {
      assert p[..|source| + 1] == source + [p[|source|]];
    }
  }

  /** All clear, and the top is no file with entries to be put below it. */
  lemma AllClear(src: Tree, source: Path, before: Tree, dest: Path, force: bool, names: seq<Name>)
    requires IsTree(src) && source in src && src[source] == Directory && Lists(src, source, names)
    requires PartClear(src, source, before, dest, force, names)
    requires names != [] && dest in before ==> before[dest] == Directory
    ensures NoClash(src, source, before, dest, force)
  {
    PartIsAll(src, source, names);
    forall p | p in src && source <= p
      ensures !Clashes(src, p, before, dest + p[|source|..], force)
    {
      assert p in Part(src, source, names);
      if p == source {
        assert source[|source|..] == [] && dest + [] == dest;
        if HasChild(src, source) {
          var n: Name :| source + [n] in src;
          assert IsChild(src, source, source + [n]);
        }
      }
    }
  }

  lemma EntryClashes(src: Tree, source: Path, before: Tree, dest: Path, force: bool, name: Name)
    requires exists p :: p in src && source + [name] <= p && Clashes(src, p, before, dest + p[|source|..], force)
    ensures !NoClash(src, source, before, dest, force)
  {
    var p :| p in src && source + [name] <= p && Clashes(src, p, before, dest + p[|source|..], force);
    assert source <= p;
  }

  lemma TopClashes(src: Tree, source: Path, before: Tree, dest: Path, force: bool, name: Name)
    requires source in src && src[source] == Directory && source + [name] in src && dest in before && before[dest].Regular?
    ensures !NoClash(src, source, before, dest, force)
  {
    assert source[|source|..] == [] && dest + [] == dest;
    assert HasChild(src, source);
    assert Clashes(src, source, before, dest + source[|source|..], force);
  }

  /** Changes below a child of the destination, after others. */
  lemma CopiesBoth(src: Tree, source: Path, before: Tree, dest: Path, mid: Tree, name: Name, after: Tree)
    requires OnlyCopies(src, source, before, dest, mid) && OnlyCopies(src, source + [name], mid, dest + [name], after)
    ensures OnlyCopies(src, source, before, dest, after)
    ensures dest in mid ==> dest in after && after[dest] == mid[dest]
  {
    forall q: Path
      ensures Unchanged(before, after, q) || IsCopy(src, source, dest, after, q)
    {
      assert Unchanged(before, mid, q) || IsCopy(src, source, dest, mid, q);
      if IsCopy(src, source + [name], dest + [name], after, q) {
        assert dest <= q;
        UnderChild(source, dest, name, q);
      } else {
        assert Unchanged(mid, after, q);
      }
    }
    assert !(dest + [name] <= dest);
    assert Unchanged(mid, after, dest);
  }

  lemma SameBelowChild(source: Path, s: Tree, t: Tree, name: Name)
    requires SameBelow(source, s, t)
    ensures SameBelow(source + [name], s, t)
  {
    forall p: Path | source + [name] <= p
      ensures Unchanged(s, t, p)
    {
      assert source <= p;
    }
  }

  lemma ApartChild(t: Tree, source: Path, dest: Path, name: Name)
    requires Apart(t, source, dest)
    ensures Apart(t, source + [name], dest + [name])
  {
    forall p | p in t && source + [name] <= p
      ensures !(source + [name] <= dest + [name] + p[|source| + 1..])
    {
      assert p[|source|..] == [name] + p[|source| + 1..] && dest + p[|source|..] == dest + [name] + p[|source| + 1..];
    }
  }

  /** What the source of a copying is, and where it may go: `s` is the tree that is copied. */
  ghost predicate Ready(src: Remote, dst: Remote, s: Tree, source: Path, dest: Path)
    reads src, dst
  {
    && IsTree(s) && IsTree(src.nodes) && IsTree(dst.nodes)
    && SameBelow(source, s, src.nodes)
    && (src == dst ==> Apart(s, source, dest))
  }

  /**
   _cp_dir: the whole tree exactly if the destination can be there and nothing clashes; else it raises,
   which is false. Either way nothing changes but what becomes a copy. Within one file system no copy
   may fall inside the source.
   */
  method CpDir(src: Remote, dst: Remote, source: Path, dest: Path, force: bool, ghost s: Tree) returns (ok: bool)
    requires Ready(src, dst, s, source, dest) && source in s && s[source] == Directory
    modifies dst
    ensures ok <==> CanHold(old(dst.nodes), dest) && NoClash(s, source, old(dst.nodes), dest, force)
    ensures ok ==> CopiedSet(s, source, old(dst.nodes), dest, force, Subtree(s, source), dst.nodes)
    ensures OnlyCopies(s, source, old(dst.nodes), dest, dst.nodes) && IsTree(dst.nodes)
    decreases |Descendants(s, source)|
  {
    hide IsTree, CopiedSet, NoClash, Lists, Part, Subtree, Descendants, Apart, SameBelow, OnlyCopies, PartClear;
    ghost var before := dst.nodes;
    NothingCopied(s, source, before, dest);
    if dest !in dst.nodes {
      ok := dst.Mkdir(dest);
      if !ok {
        return;
      }
      StaysTree(before, dest, Directory);
    }
    ghost var top := dst.nodes;
    TopCopied(s, source, before, dest, force, top);
    if src == dst { SourceStays(s, source, before, dest, top); }
    SourceIsThere(s, source, src.nodes);
    var files := src.Scandir(source);
    var names := files.value;
    Sublists(s, src.nodes, source, names);
    ListFacts(s, source, names);
    NothingClear(s, source, before, dest, force);
    for i := 0 to |names|
      invariant Ready(src, dst, s, source, dest)
      invariant dest in dst.nodes && dst.nodes[dest] == top[dest] && (i > 0 ==> top[dest] == Directory)
      invariant CopiedSet(s, source, before, dest, force, Part(s, source, names[..i]), dst.nodes)
      invariant PartClear(s, source, before, dest, force, names[..i])
      invariant OnlyCopies(s, source, before, dest, dst.nodes)
    {
      ok := CpEntry(src, dst, source, dest, names[i], force, s, names[..i], before);
      assert names[..i + 1] == names[..i] + [names[i]];
      if !ok {
        if top[dest] != Directory { TopClashes(s, source, before, dest, force, names[i]); }
        return;
      }
    }
    assert names[..|names|] == names;
    PartIsAll(s, source, names);
    AllClear(s, source, before, dest, force, names);
    ok := true;
  }

  lemma NothingCopied(src: Tree, source: Path, before: Tree, dest: Path)
    ensures OnlyCopies(src, source, before, dest, before)
  {}

  lemma NothingClear(src: Tree, source: Path, before: Tree, dest: Path, force: bool)
    ensures PartClear(src, source, before, dest, force, [])
  {}

  lemma SourceIsThere(s: Tree, source: Path, t: Tree)
    requires SameBelow(source, s, t) && source in s
    ensures source in t && t[source] == s[source]
  {
    assert Unchanged(s, t, source);
  }

  /** The loop body of _cp_dir. */
  method CpEntry(src: Remote, dst: Remote, source: Path, dest: Path, name: Name, force: bool, ghost s: Tree,
                 ghost copied: seq<Name>, ghost before: Tree)
    returns (ok: bool)
    requires Ready(src, dst, s, source, dest) && source + [name] in s && name !in copied && dest in dst.nodes
    requires CopiedSet(s, source, before, dest, force, Part(s, source, copied), dst.nodes)
    requires PartClear(s, source, before, dest, force, copied) && OnlyCopies(s, source, before, dest, dst.nodes)
    modifies dst
    ensures Ready(src, dst, s, source, dest) && dest in dst.nodes && dst.nodes[dest] == old(dst.nodes)[dest]
    ensures OnlyCopies(s, source, before, dest, dst.nodes)
    ensures ok ==> old(dst.nodes)[dest] == Directory
    ensures ok ==> CopiedSet(s, source, before, dest, force, Part(s, source, copied + [name]), dst.nodes)
    ensures ok ==> PartClear(s, source, before, dest, force, copied + [name])
    ensures !ok && old(dst.nodes)[dest] == Directory ==> !NoClash(s, source, before, dest, force)
    decreases |Descendants(s, source)|, 0
  {
    hide IsTree, CopiedSet, NoClash, Part, Subtree, Descendants, Apart, SameBelow, OnlyCopies, PartClear, Clashes;
    ghost var mid := dst.nodes;
    var srcFile, destFile := source + [name], dest + [name];
    assert destFile[..|destFile| - 1] == dest;
    PartStep(s, source, copied, name);
    StillClashes(s, source, before, dest, force, Part(s, source, copied), mid, name);
    SameBelowChild(source, s, src.nodes, name);
    SourceIsThere(s, srcFile, src.nodes);
    NothingInFile(mid, dest, name);
    if src == dst { ApartChild(s, source, dest, name); }
    if src.nodes[srcFile] == Directory {
      FewerBelow(s, source, name);
      ok := CpDir(src, dst, srcFile, destFile, force, s);
      if ok { Rebased(s, source, mid, dest, force, name, dst.nodes); }
    } else {
      ok := CpFile(src, dst, srcFile, destFile, force);
      FileClashes(s, srcFile, mid, destFile, force);
      FileOnly(s, source, name, mid, dest, dst.nodes);
      if dst.nodes != mid { StaysTree(mid, destFile, s[srcFile]); }
      if ok { FileCopied(s, source, name, mid, dest, force, dst.nodes); }
    }
    CopiesBoth(s, source, before, dest, mid, name, dst.nodes);
    if src == dst { Lifted(s, source, mid, dest, name, dst.nodes); SourceStays(s, source, mid, dest, dst.nodes); }
    if ok {
      CopiedBoth(s, source, before, dest, force, Part(s, source, copied), mid, Subtree(s, srcFile), dst.nodes);
      PartClearStep(s, source, before, dest, force, copied, name);
    } else if mid[dest] == Directory {
      EntryClashes(s, source, before, dest, force, name);
    }
  }

  /** There is nothing below a file. */
  lemma NothingInFile(t: Tree, dir: Path, name: Name)
    requires IsTree(t) && dir in t
    ensures t[dir].Regular? ==> dir + [name] !in t
  {
    assert (dir + [name])[..|dir + [name]| - 1] == dir;
  }

  lemma Lifted(src: Tree, source: Path, mid: Tree, dest: Path, name: Name, after: Tree)
    requires OnlyCopies(src, source + [name], mid, dest + [name], after)
    ensures OnlyCopies(src, source, mid, dest, after)
  {
    NothingCopied(src, source, mid, dest);
    CopiesBoth(src, source, mid, dest, mid, name, after);
  }

  lemma FileClashes(src: Tree, source: Path, dst: Tree, dest: Path, force: bool)
    requires IsTree(src) && source in src && src[source].Regular?
    ensures NoClash(src, source, dst, dest, force) <==> !(dest in dst && force && dst[dest] == Directory)
  {
    FilesAreLeaves(src, source);
    assert source[|source|..] == [] && dest + [] == dest;
    forall p | p in src && source <= p
      ensures p == source
    {
      assert p in Subtree(src, source);
    }
  }

  lemma FileOnly(src: Tree, source: Path, name: Name, before: Tree, dest: Path, after: Tree)
    requires source + [name] in src
    requires after == before || after == before[dest + [name] := src[source + [name]]]
    ensures OnlyCopies(src, source + [name], before, dest + [name], after)
  {
    var q := dest + [name];
    assert q[|q|..] == [] && (source + [name]) + [] == source + [name];
  }

  /** There is a directory for the file to be in, and no directory in its place. */
  ghost predicate CanWrite(t: Tree, p: Path) {
    p != [] && p[..|p| - 1] in t && t[p[..|p| - 1]] == Directory && (p in t ==> t[p].Regular?)
  }

  /** The last lines of both loops: a file that exists stays unless forced. */
  method CpFile(src: Remote, dst: Remote, srcFile: Path, destFile: Path, force: bool) returns (ok: bool)
    requires srcFile in src.nodes && src.nodes[srcFile].Regular?
    modifies dst
    ensures destFile in old(dst.nodes) && !force ==> ok && dst.nodes == old(dst.nodes)
    ensures !(destFile in old(dst.nodes) && !force) ==>
              && ok == CanWrite(old(dst.nodes), destFile)
              && dst.nodes == if ok then old(dst.nodes)[destFile := old(src.nodes)[srcFile]] else old(dst.nodes)
  {
    if destFile in dst.nodes && !force {
      return true;
    }
    ok := dst.WriteBytes(destFile, src.nodes[srcFile].data);
  }

  lemma ListFacts(t: Tree, dir: Path, names: seq<Name>)
    requires Lists(t, dir, names)
    ensures forall i :: 0 <= i < |names| ==> dir + [names[i]] in t && names[i] !in names[..i]
  {
    forall i | 0 <= i < |names|
      ensures dir + [names[i]] in t
    {
      assert IsChild(t, dir, dir + [names[i]]);
    }
  }

  // ---- cp -------------------------------------------------------------------------------------

  function LastName(p: Path): Name
    requires p != []
  {
    p[|p| - 1]
  }

  ghost predicate CanBeMade(t: Tree, p: Path) {
    p !in t && p != [] && p[..|p| - 1] in t && t[p[..|p| - 1]] == Directory
  }

  /** The destination as the first lines of cp leave it. */
  ghost function WithDest(t: Tree, dest: Path, recursive: bool): Tree {
    if recursive && CanBeMade(t, dest) then t[dest := Directory] else t
  }

  /** Where a file is copied to: into the destination if that is a directory, else to that very path. */
  ghost function FileTarget(t: Tree, source: Path, dest: Path): Path
    requires source != []
  {
    if dest in t && t[dest] == Directory then dest + [LastName(source)] else dest
  }

  /** The tree at `source` is also at `dest` under its own name, with nothing else there or changed. */
  ghost predicate Reproduced(src: Tree, source: Path, before: Tree, dest: Path, after: Tree)
    requires source != []
  {
    var target := dest + [LastName(source)];
    && (forall rel: Path :: source + rel in src <==> target + rel in after)
    && (forall rel: Path :: source + rel in src ==> after[target + rel] == src[source + rel])
    && dest in after && after[dest] == Directory
    && forall q: Path :: !(dest <= q) ==> Unchanged(before, after, q)
  }

  /**
   cp of one source; false stands for a raised error. Within one file system no copy may fall inside the
   source, and the source must not come to be by making the destination.
   */
  method Cp(src: Remote, dst: Remote, source: Path, dest: Path, recursive: bool, force: bool) returns (ok: bool)
    requires IsTree(src.nodes) && IsTree(dst.nodes) && source != []
    requires src == dst && recursive && source !in src.nodes ==> source != dest
    requires src == dst && recursive && source in src.nodes && src.nodes[source] == Directory ==>
               Apart(src.nodes, source, dest + [LastName(source)])
    modifies dst
    // a missing source is an error, after the destination has been made
    ensures source !in old(src.nodes) ==> !ok && dst.nodes == WithDest(old(dst.nodes), dest, recursive)
    // directories are omitted unless the copying is recursive
    ensures source in old(src.nodes) && old(src.nodes)[source] == Directory && !recursive ==> ok && dst.nodes == old(dst.nodes)
    // a directory arrives under its own name in the destination, exactly if that can be there and nothing clashes
    ensures source in old(src.nodes) && old(src.nodes)[source] == Directory && recursive ==>
              var s, mid, target := old(src.nodes), WithDest(old(dst.nodes), dest, true), dest + [LastName(source)];
              && ok == (CanHold(mid, target) && NoClash(s, source, mid, target, force))
              && (ok ==> CopiedSet(s, source, mid, target, force, Subtree(s, source), dst.nodes))
              && OnlyCopies(s, source, mid, target, dst.nodes)
    // where there was nothing, the directory is reproduced
    ensures source in old(src.nodes) && old(src.nodes)[source] == Directory && recursive && CanBeMade(old(dst.nodes), dest) ==>
              ok && Reproduced(old(src.nodes), source, old(dst.nodes), dest, dst.nodes)
    // a file is written to its target, unless it stays as it is or cannot be written
    ensures source in old(src.nodes) && old(src.nodes)[source].Regular? ==>
              var mid := WithDest(old(dst.nodes), dest, recursive);
              var target := FileTarget(mid, source, dest);
              var made := !recursive || dest in mid;
              var stays := target in mid && !force;
              && ok == (made && (stays || CanWrite(mid, target)))
              && dst.nodes == if ok && !stays then mid[target := old(src.nodes)[source]] else mid
  {
    hide IsTree, CopiedSet, NoClash, Subtree, Reproduced, OnlyCopies, Apart, SameBelow;
    ghost var s, before := src.nodes, dst.nodes;
    ghost var target := dest + [LastName(source)];
    if recursive && dest !in dst.nodes {
      ok := dst.Mkdir(dest);
      if !ok {
        NothingCopied(s, source, before, target);
        assert target[..|target| - 1] == dest;
        NothingBelow(before, dest, LastName(source));
        return;
      }
      StaysTree(before, dest, Directory);
    }
    ghost var mid := dst.nodes;
    assert mid == WithDest(before, dest, recursive);
    if source !in src.nodes {
      return false;
    }
    if src.nodes[source] == Directory {
      if !recursive {
        return true; // omitting directory
      }
      if src == dst { SourceUntouched(s, source, before, dest, mid); } else { Untouched(s, source); }
      ok := CpDirTo(src, dst, source, dest + [LastName(source)], force, s);
      if CanBeMade(before, dest) {
        AbsentNoClash(s, source, before, dest, force);
        AbsentIsReproduced(s, source, before, dest, force, dst.nodes);
      }
    } else {
      var curDest := if dest in dst.nodes && dst.nodes[dest] == Directory then dest + [LastName(source)] else dest;
      ok := CpFile(src, dst, source, curDest, force);
    }
  }

  /** The branch of cp for a directory: curDest is made, if it is not there, with the mode of the source. */
  method CpDirTo(src: Remote, dst: Remote, source: Path, curDest: Path, force: bool, ghost s: Tree) returns (ok: bool)
    requires Ready(src, dst, s, source, curDest) && source in s && s[source] == Directory
    modifies dst
    ensures ok <==> CanHold(old(dst.nodes), curDest) && NoClash(s, source, old(dst.nodes), curDest, force)
    ensures ok ==> CopiedSet(s, source, old(dst.nodes), curDest, force, Subtree(s, source), dst.nodes)
    ensures OnlyCopies(s, source, old(dst.nodes), curDest, dst.nodes)
  {
    hide IsTree, CopiedSet, NoClash, Subtree, OnlyCopies, Apart, SameBelow;
    ghost var mid := dst.nodes;
    NothingCopied(s, source, mid, curDest);
    if curDest in dst.nodes {
      ok := CpDir(src, dst, source, curDest, force, s);
      return;
    }
    ok := dst.Mkdir(curDest);
    if !ok {
      return;
    }
    ghost var made := dst.nodes;
    StaysTree(mid, curDest, Directory);
    TopCopied(s, source, mid, curDest, force, made);
    if src == dst { SourceStays(s, source, mid, curDest, made); }
    TopMadeNoClash(s, source, mid, curDest, force);
    ok := CpDir(src, dst, source, curDest, force, s);
    SourceIsIn(s, source);
    if ok { TopWasMade(s, source, mid, curDest, force, Subtree(s, source), dst.nodes); }
    TopOnly(s, source, mid, curDest, dst.nodes);
  }

  lemma NothingBelow(t: Tree, dir: Path, name: Name)
    requires IsTree(t) && dir !in t
    ensures dir + [name] !in t
  {
    assert (dir + [name])[..|dir + [name]| - 1] == dir;
  }

  lemma Untouched(t: Tree, source: Path)
    ensures SameBelow(source, t, t)
  {}

  lemma SourceUntouched(s: Tree, source: Path, before: Tree, dest: Path, mid: Tree)
    requires s == before && source != [] && source in s && Apart(s, source, dest + [LastName(source)])
    requires mid == before || mid == before[dest := Directory]
    ensures SameBelow(source, s, mid)
  {
    var target := dest + [LastName(source)];
    assert source[|source|..] == [] && target + [] == target;
    assert !(source <= target);
    assert source <= dest ==> source <= target;
  }

  lemma TopOnly(src: Tree, source: Path, mid: Tree, curDest: Path, after: Tree)
    requires source in src && src[source] == Directory && curDest !in mid
    requires OnlyCopies(src, source, mid[curDest := Directory], curDest, after)
    ensures OnlyCopies(src, source, mid, curDest, after)
  {
    assert curDest[|curDest|..] == [] && source + [] == source;
    forall q: Path
      ensures Unchanged(mid, after, q) || IsCopy(src, source, curDest, after, q)
    {
      assert Unchanged(mid[curDest := Directory], after, q) || IsCopy(src, source, curDest, after, q);
    }
  }

  lemma SourceIsIn(t: Tree, p: Path)
    requires p in t
    ensures p in Subtree(t, p)
  {}

  lemma TopMadeNoClash(src: Tree, source: Path, mid: Tree, curDest: Path, force: bool)
    requires source in src && src[source] == Directory && curDest !in mid
    ensures NoClash(src, source, mid[curDest := Directory], curDest, force) <==> NoClash(src, source, mid, curDest, force)
  {
    assert source[|source|..] == [] && curDest + [] == curDest;
    forall p | p in src && source <= p
      ensures Clashes(src, p, mid[curDest := Directory], curDest + p[|source|..], force)
         <==> Clashes(src, p, mid, curDest + p[|source|..], force)
    {
      if p != source { assert |curDest + p[|source|..]| > |curDest|; }
    }
  }

  /** Making the top directory first makes no difference. */
  lemma TopWasMade(src: Tree, source: Path, mid: Tree, curDest: Path, force: bool, done: set<Path>, after: Tree)
    requires source in src && src[source] == Directory && curDest !in mid && source in done
    requires CopiedSet(src, source, mid[curDest := Directory], curDest, force, done, after)
    ensures CopiedSet(src, source, mid, curDest, force, done, after)
  {
    assert curDest[|curDest|..] == [] && source + [] == source;
    forall q: Path
      ensures CopiedAt(src, source, mid, curDest, force, done, after, q)
    {
      assert CopiedAt(src, source, mid[curDest := Directory], curDest, force, done, after, q);
    }
  }

  /** Copying a directory into a place where nothing is reproduces its tree there, and changes nothing else. */
  lemma AbsentIsReproduced(src: Tree, source: Path, before: Tree, dest: Path, force: bool, after: Tree)
    requires source != [] && IsTree(before) && CanBeMade(before, dest)
    requires var target := dest + [LastName(source)];
             CopiedSet(src, source, WithDest(before, dest, true), target, force, Subtree(src, source), after)
    ensures Reproduced(src, source, before, dest, after)
  {
    var target := dest + [LastName(source)];
    var mid := WithDest(before, dest, true);
    var done := Subtree(src, source);
    AbsentBelow(before, dest);
    forall rel: Path
      ensures source + rel in src <==> target + rel in after
      ensures source + rel in src ==> after[target + rel] == src[source + rel]
    {
      assert CopiedAt(src, source, mid, target, force, done, after, target + rel);
      BelowTarget(dest, LastName(source), rel);
    }
    OthersStay(src, source, before, dest, force, after);
  }

  lemma AbsentNoClash(src: Tree, source: Path, before: Tree, dest: Path, force: bool)
    requires source != [] && IsTree(before) && CanBeMade(before, dest)
    ensures NoClash(src, source, WithDest(before, dest, true), dest + [LastName(source)], force)
    ensures CanHold(WithDest(before, dest, true), dest + [LastName(source)])
  {
    AbsentBelow(before, dest);
    assert (dest + [LastName(source)])[..|dest|] == dest;
    forall p | p in src && source <= p
      ensures dest + [LastName(source)] + p[|source|..] !in WithDest(before, dest, true)
    {
      BelowTarget(dest, LastName(source), p[|source|..]);
    }
  }

  lemma AbsentBelow(t: Tree, dest: Path)
    requires IsTree(t) && dest !in t
    ensures forall q: Path :: dest <= q ==> q !in t
  {
    PrefixesAreThere(t, dest);
  }

  lemma PrefixesAreThere(t: Tree, dest: Path)
    requires IsTree(t)
    ensures forall q: Path :: q in t && dest <= q ==> dest in t
  {
    forall q: Path | q in t && dest <= q
      ensures dest in t
    {
      PrefixIsThere(t, dest, q);
    }
  }

  lemma PrefixOfPrefix(a: Path, b: Path, c: Path)
    ensures a <= b && b <= c ==> a <= c
  {}

  lemma BelowTarget(dest: Path, name: Name, rel: Path)
    ensures var q := dest + [name] + rel;
            dest + [name] <= q && dest <= q && q != dest && q[|dest + [name]|..] == rel
  {
    assert |dest + [name] + rel| > |dest|;
  }

  lemma OthersStay(src: Tree, source: Path, before: Tree, dest: Path, force: bool, after: Tree)
    requires source != [] && CanBeMade(before, dest)
    requires CopiedSet(src, source, WithDest(before, dest, true), dest + [LastName(source)], force, Subtree(src, source), after)
    ensures dest in after && after[dest] == Directory
    ensures forall q: Path :: !(dest <= q) ==> Unchanged(before, after, q)
  {
    var target := dest + [LastName(source)];
    assert |target| > |dest| && dest <= target;
    assert CopiedAt(src, source, WithDest(before, dest, true), target, force, Subtree(src, source), after, dest);
    forall q: Path | !(dest <= q)
      ensures Unchanged(before, after, q)
    {
      assert CopiedAt(src, source, WithDest(before, dest, true), target, force, Subtree(src, source), after, q);
      PrefixOfPrefix(dest, target, q);
    }
  }

  lemma PrefixIsThere(t: Tree, dest: Path, q: Path)
    requires IsTree(t) && q in t && dest <= q
    ensures dest in t
  {
    if |q| > |dest| { AncestorIsThere(t, dest, q, |dest|); } else { assert q[..|dest|] == q; }
    assert q[..|dest|] == dest;
  }

  // ---- File.write -----------------------------------------------------------------------------

  /** A remote file that is open for writing; a write may take any part of the buffer, or fail. */
  class File {
    var written: seq<byte>
    /** How often a write may still take nothing. */
    var patience: nat

    constructor (patience: nat)
      ensures written == [] && this.patience == patience
    {
      written := [];
      this.patience := patience;
    }

    /** _write */
    method WriteSome(buf: seq<byte>) returns (n: Option<nat>)
      modifies this
      ensures n.Some? ==> n.value <= |buf| && written == old(written) + buf[..n.value]
      ensures n.None? ==> written == old(written)
      ensures n.Some? && n.value == 0 && buf != [] ==> patience < old(patience)
      ensures patience <= old(patience)
    {
      if * {
        return None;
      }
      assert |buf| > 0 || buf == [];
      var k: nat :| k <= |buf| && (k > 0 || buf == [] || patience > 0);
      if k == 0 && buf != [] {
        patience := patience - 1;
      }
      written := written + buf[..k];
      n := Some(k);
    }

    /** write: everything is written, and the length that is returned is that of the empty rest. */
    method Write(buf: seq<byte>) returns (r: Option<nat>)
      modifies this
      ensures r.Some? ==> written == old(written) + buf && r.value == 0
      ensures r.None? ==> exists k :: 0 <= k <= |buf| && written == old(written) + buf[..k]
    {
      var rest := buf;
      ghost var k: nat := 0;
      while rest != []
        invariant k <= |buf| && rest == buf[k..] && written == old(written) + buf[..k]
        decreases |rest|, patience
      {
        var n := WriteSome(rest);
        if n.None? {
          return None;
        }
        assert buf[..k] + rest[..n.value] == buf[..k + n.value];
        rest := rest[n.value..];
        k := k + n.value;
      }
      assert buf[..k] == buf;
      return Some(|rest|);
    }
  }
}
