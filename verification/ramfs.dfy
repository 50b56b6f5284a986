/**
  The in-memory file tree of `tfs.c` as a value: nodes by address, each directory
  with its children newest first. Address 0 is NULL.
*/
module Ramfs {
  import opened Finite

  const ROOT: nat := 1
  const MAX_NAME: nat := 64

  /** `depth` is the distance from the root. */
  datatype Inode = Inode(name: string, dir: bool, parent: nat, kids: seq<nat>, depth: nat)

  type Fs = map<nat, Inode>

  // -------------------------------------------------------------- invariant

  predicate GoodName(s: string) { s != "" && s != "." && s != ".." && '/' !in s && |s| < MAX_NAME }

  ghost predicate KidsOk(fs: Fs, d: nat)
    requires d in fs
  {
    var kids := fs[d].kids;
    && NoDup(kids) && (!fs[d].dir ==> kids == [])
    && (forall c :: c in kids ==> c in fs && c != ROOT && fs[c].parent == d)
  }

  /** Siblings have different names. */
  ghost predicate Unique(fs: Fs, d: nat)
    requires d in fs && KidsOk(fs, d)
  {
    forall a, b :: a in fs[d].kids && b in fs[d].kids && a != b ==> fs[a].name != fs[b].name
  }

  ghost predicate PlaceOk(fs: Fs, k: nat)
    requires k in fs
  {
    if k == ROOT then fs[k].parent == ROOT && fs[k].depth == 0 && fs[k].dir
    else
      var p := fs[k].parent;
      p in fs && k in fs[p].kids && fs[k].depth == fs[p].depth + 1 && GoodName(fs[k].name)
  }

  /** A tree: parent and child links match, and every node is at its distance from
      the root. */
  ghost predicate LinksOk(fs: Fs) {
    ROOT in fs && 0 !in fs && forall k :: k in fs ==> KidsOk(fs, k) && PlaceOk(fs, k)
  }

  /** A tree in which no two siblings have the same name. */
  ghost predicate TreeOk(fs: Fs) {
    LinksOk(fs) && forall k :: k in fs ==> KidsOk(fs, k) && Unique(fs, k)
  }

  function Booted(): (fs: Fs) { map[ROOT := Inode("/", true, ROOT, [], 0)] }

  lemma BootedOk()
    ensures TreeOk(Booted())
  {
  }

  // ------------------------------------------------------------------ paths

  /** The name between slashes at `p`, up to but excluding position `e`. */
  function SegmentEnd(path: string, p: nat): (e: nat)
    requires p <= |path|
    ensures p <= e <= |path| && '/' !in path[p..e] && (e < |path| ==> path[e] == '/')
    ensures p < |path| && path[p] != '/' ==> p < e
    decreases |path| - p
  {
    if p < |path| && path[p] != '/' then
      var e := SegmentEnd(path, p + 1);
      assert path[p..e] == [path[p]] + path[p + 1..e];
      e
    else p
  }

  function SkipSlashes(path: string, p: nat): (q: nat)
    requires p <= |path|
    ensures p <= q <= |path| && (q < |path| ==> path[q] != '/')
    ensures forall k :: p <= k < q ==> path[k] == '/'
    decreases |path| - p
  {
    if p < |path| && path[p] == '/' then SkipSlashes(path, p + 1) else p
  }

  /** The segments of a path from `p` on. */
  function Segments(path: string, p: nat): (r: seq<string>)
    requires p <= |path|
    ensures forall s :: s in r ==> s != "" && '/' !in s
    decreases |path| - p
  {
    var q := SkipSlashes(path, p);
    if q == |path| then []
    else
      var e := SegmentEnd(path, q);
      [path[q..e]] + Segments(path, e)
  }

  /** Whether the path ends in a name rather than a slash. */
  predicate EndsInName(path: string) { path != "" && path[|path| - 1] != '/' }

  // ------------------------------------------------------------- operations

  /** `find_child` over a child list: the first child of this name, or 0. */
  function FindIn(fs: Fs, kids: seq<nat>, s: string): (r: nat)
    requires forall c :: c in kids ==> c in fs
    requires 0 !in fs
    ensures r != 0 ==> r in kids && fs[r].name == s
    ensures r == 0 ==> forall c :: c in kids ==> fs[c].name != s
  {
    if kids == [] then 0
    else if fs[kids[0]].name == s then kids[0]
    else FindIn(fs, kids[1..], s)
  }

  function Child(fs: Fs, d: nat, s: string): (r: nat)
    requires d in fs && 0 !in fs && forall c :: c in fs[d].kids ==> c in fs
    ensures r != 0 ==> r in fs[d].kids && fs[r].name == s
    ensures r == 0 ==> forall c :: c in fs[d].kids ==> fs[c].name != s
  {
    FindIn(fs, fs[d].kids, s)
  }

  /** `tfs_lookup` from a node, over the remaining segments. */
  ghost function Lookup(fs: Fs, cur: nat, segs: seq<string>): (r: nat)
    requires LinksOk(fs) && cur in fs
    ensures r != 0 ==> r in fs
    decreases |segs|
  {
    TreeFacts(fs, cur);
    if segs == [] then cur
    else if segs[0] == "." then Lookup(fs, cur, segs[1..])
    else if segs[0] == ".." then Lookup(fs, fs[cur].parent, segs[1..])
    else if !fs[cur].dir then 0
    else
      var c := Child(fs, cur, segs[0]);
      if c == 0 then 0 else Lookup(fs, c, segs[1..])
  }

  lemma TreeFacts(fs: Fs, k: nat)
    requires LinksOk(fs) && k in fs
    ensures fs[k].parent in fs && 0 !in fs && forall c :: c in fs[k].kids ==> c in fs
  {
    assert KidsOk(fs, k) && PlaceOk(fs, k);
  }

  /** A new node at the head of directory `d`. */
  function AddChild(fs: Fs, d: nat, n: nat, name: string, dir: bool): (r: Fs)
    requires d in fs
  {
    fs[d := fs[d].(kids := [n] + fs[d].kids)][n := Inode(name, dir, d, [], fs[d].depth + 1)]
  }

  /** `alloc_node_len` cuts names to 63 characters. */
  function Cut(name: string): (r: string)
    ensures r <= name && |r| == if |name| < 64 then |name| else 63
  {
    if |name| >= MAX_NAME then name[..MAX_NAME - 1] else name
  }

  /** No child of `d` has this name. */
  ghost predicate NewName(fs: Fs, d: nat, name: string)
    requires d in fs
  {
    forall c :: c in fs[d].kids ==> c in fs && fs[c].name != name
  }

  lemma AddHere(fs: Fs, d: nat, n: nat, name: string, dir: bool) returns (t: Fs)
    requires LinksOk(fs) && d in fs && n !in fs && n != 0
    ensures t == AddChild(fs, d, n, name, dir) && n in t && d in t && t[d].kids == [n] + fs[d].kids &&
            t[d].dir == fs[d].dir
    ensures t[n].name == name && t[n].parent == d && n != ROOT && NoDup(t[d].kids)
    ensures forall c :: c in fs ==> c in t && t[c].name == fs[c].name && t[c].parent == fs[c].parent
    ensures forall c :: c in fs[d].kids ==> c in fs && c != n
  {
    hide PlaceOk;
    assert KidsOk(fs, d);
    t := AddChild(fs, d, n, name, dir);
    NoDupConcat([n], fs[d].kids);
  }

  lemma AddKids(fs: Fs, d: nat, n: nat, name: string, dir: bool, k: nat)
    requires LinksOk(fs) && d in fs && fs[d].dir && n !in fs && n != 0 && k in AddChild(fs, d, n, name, dir)
    ensures KidsOk(AddChild(fs, d, n, name, dir), k)
  {
    hide PlaceOk, NoDup;
    var t := AddHere(fs, d, n, name, dir);
    if k in fs {
      assert KidsOk(fs, k);
    } else {
      NoKids();
    }
  }

  lemma NoKids()
    ensures NoDup([])
  {
  }

  lemma AddPlace(fs: Fs, d: nat, n: nat, name: string, dir: bool, k: nat)
    requires LinksOk(fs) && d in fs && fs[d].dir && n !in fs && n != 0 && k in AddChild(fs, d, n, name, dir)
    ensures PlaceOk(AddChild(fs, d, n, name, dir), k) <==> k != n || GoodName(name)
  {
    hide GoodName, KidsOk;
    var t := AddChild(fs, d, n, name, dir);
    assert n in t[d].kids;
    if k in fs {
      assert PlaceOk(fs, k);
      assert fs[k].parent in fs ==> forall c :: c in fs[fs[k].parent].kids ==> c in t[fs[k].parent].kids;
    }
  }

  /** Adding a node keeps the links in order exactly when it has a proper name. */
  lemma AddLinksIff(fs: Fs, d: nat, n: nat, name: string, dir: bool)
    requires LinksOk(fs) && d in fs && fs[d].dir && n !in fs && n != 0
    ensures LinksOk(AddChild(fs, d, n, name, dir)) <==> GoodName(name)
  {
    hide KidsOk, PlaceOk, GoodName;
    var t := AddChild(fs, d, n, name, dir);
    forall k | k in t
      ensures KidsOk(t, k) && (PlaceOk(t, k) <==> k != n || GoodName(name))
    {
      AddPlace(fs, d, n, name, dir, k);
      AddKids(fs, d, n, name, dir, k);
    }
    assert n in t;
  }

  lemma AddUnique(fs: Fs, d: nat, n: nat, name: string, dir: bool, k: nat)
    requires LinksOk(fs) && d in fs && n !in fs && n != 0 && k in AddChild(fs, d, n, name, dir)
    requires k in fs ==> KidsOk(fs, k) && Unique(fs, k)
    requires KidsOk(AddChild(fs, d, n, name, dir), k)
    ensures Unique(AddChild(fs, d, n, name, dir), k) <==> k != d || NewName(fs, d, name)
  {
    hide PlaceOk, NoDup, LinksOk;
    var t := AddHere(fs, d, n, name, dir);
    if k == d {
      var kids := fs[d].kids;
      assert forall c :: c in t[d].kids <==> c == n || c in kids;
      if c :| c in kids && fs[c].name == name {
        assert t[c].name == t[n].name;
      }
    }
  }

  /** Adding a node keeps the tree in order exactly when it has a proper name that
      is new in its directory. */
  lemma AddKeepsIff(fs: Fs, d: nat, n: nat, name: string, dir: bool)
    requires TreeOk(fs) && d in fs && fs[d].dir && n !in fs && n != 0
    ensures TreeOk(AddChild(fs, d, n, name, dir)) <==> GoodName(name) && NewName(fs, d, name)
  {
    hide KidsOk, PlaceOk, GoodName, LinksOk, Unique, NewName;
    AddLinksIff(fs, d, n, name, dir);
    var t := AddChild(fs, d, n, name, dir);
    forall k | k in t
      ensures KidsOk(t, k) && (Unique(t, k) <==> k != d || NewName(fs, d, name))
    {
      AddKids(fs, d, n, name, dir, k);
      KidsOfUnique(fs, k);
      AddUnique(fs, d, n, name, dir, k);
    }
    assert d in t;
  }

  lemma KidsOfUnique(fs: Fs, k: nat)
    requires TreeOk(fs)
    ensures k in fs ==> KidsOk(fs, k) && Unique(fs, k)
  {
  }
}
