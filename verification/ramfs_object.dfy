/**
  The file tree as `tfs.c` keeps it: records linked through `children` and
  `next`, edited in place. Every operation is proved to do what the functions
  on `Fs` say.
*/
module RamfsObject {
  import opened Finite
  import opened Ramfs
  import opened RamfsCreate
  import opened RamfsTheorems
  import opened RamfsNames
  import opened RamfsRemove

  datatype Rec = Rec(name: string, dir: bool, parent: nat, first: nat, next: nat)

  type Nodes = map<nat, Rec>

  /** What the link to place `i` of a child list holds: the child, or 0 at the end. */
  ghost function Head(kids: seq<nat>, i: nat): nat { if i < |kids| then kids[i] else 0 }

  /** The `next` links follow the list. */
  ghost predicate Chain(nodes: Nodes, kids: seq<nat>) {
    forall j :: 0 <= j < |kids| ==> kids[j] in nodes && nodes[kids[j]].next == Head(kids, j + 1)
  }

  ghost predicate Listed(nodes: Nodes, fs: Fs, k: nat)
    requires k in fs
  {
    k in nodes && nodes[k].first == Head(fs[k].kids, 0) && Chain(nodes, fs[k].kids)
  }

  ghost predicate Matches(nodes: Nodes, fs: Fs, k: nat)
    requires k in fs
  {
    Listed(nodes, fs, k) && nodes[k].name == fs[k].name && nodes[k].dir == fs[k].dir && nodes[k].parent == fs[k].parent
  }

  ghost predicate Tied(nodes: Nodes, fs: Fs) {
    nodes.Keys == fs.Keys && forall k :: k in fs ==> Matches(nodes, fs, k)
  }

  class FileTree {
    var nodes: Nodes
    ghost var fs: Fs

    ghost predicate Valid()
      reads this
    {
      LinksOk(fs) && Tied(nodes, fs)
    }

    constructor ()
      ensures Valid() && fs == Booted()
    {
      nodes := map[ROOT := Rec("/", true, ROOT, 0, 0)];
      fs := Booted();
      BootedOk();
    }

    /** `find_child` */
    method FindChild(d: nat, name: string) returns (c: nat)
      requires Valid() && d in fs && 0 !in fs && forall c :: c in fs[d].kids ==> c in fs
      ensures c == Child(fs, d, name)
    {
      hide LinksOk;
      MatchesAt(nodes, fs, d);
      ghost var kids := fs[d].kids;
      ghost var i := 0;
      c := nodes[d].first;
      assert kids[0..] == kids;
      while c != 0
        invariant i <= |kids| && c == Head(kids, i) && FindIn(fs, kids, name) == FindIn(fs, kids[i..], name)
        decreases |kids| - i
      {
        assert i < |kids| && kids[i] in kids;
        MatchesAt(nodes, fs, c);
        if nodes[c].name == name {
          return;
        }
        c := nodes[c].next;
        i := i + 1;
      }
      NoneLeft(fs, kids, i, name);
    }

    /** The cursor loops over a path. */
    method SkipTo(path: string, p: nat) returns (q: nat)
      requires p <= |path|
      ensures q == SkipSlashes(path, p)
    {
      q := p;
      while q < |path| && path[q] == '/'
        invariant p <= q <= |path| && SkipSlashes(path, p) == SkipSlashes(path, q)
      {
        q := q + 1;
      }
    }

    method EndOfName(path: string, p: nat) returns (e: nat)
      requires p <= |path|
      ensures e == SegmentEnd(path, p)
    {
      e := p;
      while e < |path| && path[e] != '/'
        invariant p <= e <= |path| && SegmentEnd(path, p) == SegmentEnd(path, e)
      {
        e := e + 1;
      }
    }

    /** `tfs_lookup` */
    method LookupPath(path: string) returns (cur: nat)
      requires Valid() && ROOT in fs
      ensures cur == Lookup(fs, ROOT, Segments(path, 0))
    {
      hide LinksOk, Tied, Segments, Child;
      cur := ROOT;
      var p: nat := 0;
      while p < |path|
        invariant p <= |path| && cur in fs
        invariant Lookup(fs, ROOT, Segments(path, 0)) == Lookup(fs, cur, Segments(path, p))
        decreases |path| - p
      {
        SegmentsStep(path, p);
        var q := SkipTo(path, p);
        if q == |path| {
          return;
        }
        p := EndOfName(path, q);
        cur := StepTo(cur, path[q..p], Segments(path, p));
        if cur == 0 {
          return;
        }
      }
      SegmentsEnd(path);
    }

    /** One segment of a lookup; 0 if it leads nowhere. */
    method StepTo(cur: nat, seg: string, ghost rest: seq<string>) returns (r: nat)
      requires Valid() && cur in fs
      ensures if r == 0 then Lookup(fs, cur, [seg] + rest) == 0
              else r in fs && Lookup(fs, cur, [seg] + rest) == Lookup(fs, r, rest)
    {
      hide LinksOk, Tied, Child;
      TreeFacts(fs, cur);
      MatchesAt(nodes, fs, cur);
      assert ([seg] + rest)[1..] == rest;
      if seg == "." {
        return cur;
      }
      if seg == ".." {
        return nodes[cur].parent;
      }
      if !nodes[cur].dir {
        return 0;
      }
      r := FindChild(cur, seg);
    }

    /** One segment of `resolve_create`: where to go on, or 0 with the final answer. */
    method StepCreate(cur: nat, seg: string, last: bool, supply: seq<nat>, ghost rest: seq<string>, ghost named: bool)
      returns (next: nat, d: nat, left: seq<nat>)
      requires Valid() && cur in fs && Plain([seg] + rest) && Fresh(fs, supply) && (last <==> rest == [] && named)
      modifies this
      ensures Valid() && Plain(rest) && Fresh(fs, left)
      ensures var r := Resolve(old(fs), cur, [seg] + rest, named, supply);
              if next != 0 then next in fs && r == Resolve(fs, next, rest, named, left)
              else r == (fs, left, d, if d != 0 then seg else "")
    {
      hide LinksOk, Tied, Child, Fresh, AddChild, GoodName, Plain, Cut;
      TreeFacts(fs, cur);
      MatchesAt(nodes, fs, cur);
      assert ([seg] + rest)[1..] == rest;
      PlainRest([seg] + rest);
      left := supply;
      d := 0;
      if seg == "." {
        return cur, 0, left;
      }
      if seg == ".." {
        return nodes[cur].parent, 0, left;
      }
      if !nodes[cur].dir {
        return 0, 0, left;
      }
      CutIsGood([seg] + rest);
      next := FindChild(cur, seg);
      if next == 0 {
        if last {
          if |seg| < MAX_NAME {
            d := cur;
          }
        } else if supply != [] {
          UseOne(fs, supply, cur, Cut(seg), true);
          FreshHead(fs, supply);
          LinkChild(cur, supply[0], Cut(seg), true);
          next, left := supply[0], supply[1..];
        }
      }
    }

    /** `resolve_create` */
    method ResolveCreate(path: string, supply: seq<nat>) returns (d: nat, leaf: string, left: seq<nat>)
      requires Valid() && ROOT in fs && Fresh(fs, supply)
      modifies this
      ensures Valid() && Plain(Segments(path, 0))
      ensures (fs, left, d, leaf) == Resolve(old(fs), ROOT, Segments(path, 0), EndsInName(path), supply)
    {
      hide LinksOk, Tied, Segments, Fresh, Plain, EndsInName;
      PlainPath(path);
      ghost var r := Resolve(fs, ROOT, Segments(path, 0), EndsInName(path), supply);
      var cur, p: nat := ROOT, 0;
      d, leaf, left := 0, "", supply;
      while p < |path|
        invariant p <= |path| && Valid() && cur in fs && Plain(Segments(path, p)) && Fresh(fs, left) && d == 0 &&
                  leaf == ""
        invariant r == Resolve(fs, cur, Segments(path, p), EndsInName(path), left)
        decreases |path| - p
      {
        SegmentsStep(path, p);
        var q := SkipTo(path, p);
        if q == |path| {
          return;
        }
        LastSegment(path, q);
        p := EndOfName(path, q);
        cur, d, left := StepCreate(cur, path[q..p], p == |path|, left, Segments(path, p), EndsInName(path));
        if cur == 0 {
          leaf := if d != 0 then path[q..p] else "";
          return;
        }
        d := 0;
      }
      SegmentsEnd(path);
    }

    /** `make_node`, behind `tfs_mkdir` and `tfs_touch`, for every path. */
    method MakeNode(path: string, dir: bool, supply: seq<nat>) returns (n: nat)
      requires Valid() && Fresh(fs, supply)
      modifies this
      ensures Valid() && (fs, n) == Make(old(fs), path, dir, supply)
    {
      hide LinksOk, Tied, Segments, Fresh, Plain, EndsInName, Child, AddChild, Resolve;
      RootIn(fs);
      var d, leaf, left := ResolveCreate(path, supply);
      if d == 0 {
        return 0;
      }
      TreeFacts(fs, d);
      var c := FindChild(d, leaf);
      if c != 0 || left == [] {
        return 0;
      }
      UseOne(fs, left, d, leaf, dir);
      FreshHead(fs, left);
      n := left[0];
      LinkChild(d, n, leaf, dir);
    }

    /** `free_children`: frees everything below `node`. */
    method FreeChildren(node: nat, ghost t: Fs)
      requires AllListed(nodes, t, node) && node in nodes
      modifies `nodes
      ensures var freed := Ids(FreedList(t, t[node].kids, t[node].depth));
              nodes == (old(nodes) - freed)[node := old(nodes)[node].(first := 0)]
      decreases Deeper(t, t[node].depth)
    {
      hide LinksOk, Level, FreedList, Listed, AllListed, Freeing;
      AllListedParts(nodes, t, node);
      ghost var before, kids := nodes, t[node].kids;
      ghost var done: seq<nat>, i := [], 0;
      var c := nodes[node].first;
      FreeStart(nodes, t, node);
      while c != 0
        invariant i <= |kids| && c == Head(kids, i) && Freeing(t, node, i, done) && nodes == before - Ids(done)
        decreases |kids| - i
      {
        FreeStep(before, t, node, i, done);
        var next := nodes[c].next;
        AllListedParts(nodes, t, c);
        ghost var sub := FreedList(t, t[c].kids, t[c].depth);
        FreeOne(before, done, sub, c, nodes[c].(first := 0));
        FreeChildren(c, t);
        nodes := nodes - {c};
        done := done + sub + [c];
        c := next;
        i := i + 1;
      }
      FreeEnd(before, t, node, i, done);
      assert node !in Ids(done);
      nodes := nodes[node := nodes[node].(first := 0)];
    }

    /** Takes `n` out of the child list of `d`; with the pointer to the link kept
        as the record that holds it, 0 for the head. */
    method Unlink(d: nat, n: nat)
      requires Valid() && d in fs && n in fs[d].kids
      modifies `nodes
      ensures Unlinked(old(nodes), nodes, fs, d, n)
    {
      hide LinksOk, Tied;
      KidsOf(fs, d);
      TreeFacts(fs, d);
      MatchesAt(nodes, fs, d);
      ghost var kids := fs[d].kids;
      ghost var i := 0;
      var pp, at := 0, nodes[d].first;
      while at != 0 && at != n
        invariant i <= |kids| && at == Head(kids, i) && n !in kids[..i] && pp == (if i == 0 then 0 else kids[i - 1])
        decreases |kids| - i
      {
        assert kids[i] in kids;
        pp, at := at, nodes[at].next;
        i := i + 1;
      }
      FoundAt(fs, kids, n, i);
      if pp == 0 {
        nodes := nodes[d := nodes[d].(first := nodes[n].next)];
      } else {
        nodes := nodes[pp := nodes[pp].(next := nodes[n].next)];
      }
    }

    /** `tfs_rm` of NULL, the root, or a node of the tree. */
    method Remove(n: nat) returns (rc: int)
      requires Valid() && (n == 0 || n in fs)
      modifies this
      ensures Valid()
      ensures if n == 0 || n == ROOT then rc == -1 && fs == old(fs) && nodes == old(nodes)
              else rc == 0 && fs == Removed(old(fs), n)
    {
      hide LinksOk, Tied, Removed, AllListed, Unlinked, FreedList, Level;
      if n == 0 || n == ROOT {
        return -1;
      }
      ghost var before := nodes;
      PlaceFacts(fs, n);
      MatchesAt(nodes, fs, n);
      Unlink(nodes[n].parent, n);
      UnlinkedBelow(before, nodes, fs, n);
      KidsLevel(fs, n);
      RemovedTied(before, nodes, fs, n);
      RemoveKeeps(fs, n);
      FreeChildren(n, fs);
      nodes := nodes - {n};
      fs := Removed(fs, n);
      return 0;
    }

    /** Links a new node into directory `d`. */
    method LinkChild(d: nat, n: nat, name: string, dir: bool)
      requires Valid() && d in fs && n !in fs && LinksOk(AddChild(fs, d, n, name, dir))
      modifies this
      ensures Valid() && fs == AddChild(old(fs), d, n, name, dir)
    {
      hide LinksOk, AddChild, Tied;
      MatchesAt(nodes, fs, d);
      AddTied(nodes, fs, d, n, name, dir);
      FreshRecord(nodes, fs, d, n);
      nodes := nodes[n := Rec(name, dir, d, 0, nodes[d].first)];
      nodes := nodes[d := nodes[d].(first := n)];
      fs := AddChild(fs, d, n, name, dir);
    }
  }

  /** The test for the end of the string tells the last segment of a path that
      ends in a name. */
  lemma LastSegment(path: string, q: nat)
    requires q < |path| && path[q] != '/'
    ensures var e := SegmentEnd(path, q); (Segments(path, e) == [] && EndsInName(path)) <==> e == |path|
  {
    var e := SegmentEnd(path, q);
    if e == |path| {
      assert path[e - 1] == path[q..e][e - 1 - q];
    } else {
      var s := SkipSlashes(path, e);
      assert s == |path| ==> path[|path| - 1] == '/';
    }
  }

  lemma SegmentsStep(path: string, p: nat)
    requires p <= |path|
    ensures var q := SkipSlashes(path, p);
            if q == |path| then Segments(path, p) == []
            else Segments(path, p) == [path[q..SegmentEnd(path, q)]] + Segments(path, SegmentEnd(path, q))
  {
  }

  lemma SegmentsEnd(path: string)
    ensures Segments(path, |path|) == []
  {
  }

  lemma MatchesAt(nodes: Nodes, fs: Fs, k: nat)
    requires Tied(nodes, fs) && k in fs
    ensures Matches(nodes, fs, k)
  {
  }

  lemma NoneLeft(fs: Fs, kids: seq<nat>, i: nat, name: string)
    requires i <= |kids| && Head(kids, i) == 0 && 0 !in fs && forall c :: c in kids ==> c in fs
    ensures FindIn(fs, kids[i..], name) == 0
  {
    assert forall j :: 0 <= j < |kids| ==> kids[j] in kids && kids[j] != 0;
    assert i == |kids|;
  }

  /** A new record in front of the list of `d`. */
  function LinkIn(nodes: Nodes, d: nat, n: nat, name: string, dir: bool): (r: Nodes)
    requires d in nodes
  {
    nodes[n := Rec(name, dir, d, 0, nodes[d].first)][d := nodes[d].(first := n)]
  }

  lemma AddTied(nodes: Nodes, fs: Fs, d: nat, n: nat, name: string, dir: bool)
    requires d in nodes && d in fs && n !in fs && Tied(nodes, fs)
    ensures Tied(LinkIn(nodes, d, n, name, dir), AddChild(fs, d, n, name, dir))
  {
    hide Matches;
    var nodes', t := LinkIn(nodes, d, n, name, dir), AddChild(fs, d, n, name, dir);
    forall k | k in t ensures Matches(nodes', t, k) {
      if k == n {
        NewMatches(nodes, fs, d, n, name, dir);
      } else {
        AddMatches(nodes, fs, d, n, name, dir, k);
      }
    }
  }

  lemma FreshRecord(nodes: Nodes, fs: Fs, d: nat, n: nat)
    requires Tied(nodes, fs) && d in fs && n !in fs
    ensures n !in nodes && d in nodes && n != d
  {
  }

  lemma NewMatches(nodes: Nodes, fs: Fs, d: nat, n: nat, name: string, dir: bool)
    requires d in nodes && d in fs && n !in fs && d != n
    ensures Matches(LinkIn(nodes, d, n, name, dir), AddChild(fs, d, n, name, dir), n)
  {
  }

  lemma AddMatches(nodes: Nodes, fs: Fs, d: nat, n: nat, name: string, dir: bool, k: nat)
    requires d in nodes && n !in nodes && d in fs && k in fs && n != k && Matches(nodes, fs, k) && Matches(nodes, fs, d)
    ensures Matches(LinkIn(nodes, d, n, name, dir), AddChild(fs, d, n, name, dir), k)
  {
    hide Chain;
    AddChained(nodes, LinkIn(nodes, d, n, name, dir), fs[k].kids, d, n, nodes[d].first);
  }

  lemma AddChained(nodes: Nodes, nodes': Nodes, kids: seq<nat>, d: nat, n: nat, head: nat)
    requires Chain(nodes, kids) && n !in nodes && d in nodes && n in nodes' && nodes'[n].next == head
    requires forall k :: k in nodes ==> k in nodes' && nodes'[k].next == nodes[k].next
    ensures Chain(nodes', kids) && (head == Head(kids, 0) ==> Chain(nodes', [n] + kids))
  {
    if head == Head(kids, 0) {
      var list := [n] + kids;
      forall j | 0 <= j < |list| ensures list[j] in nodes' && nodes'[list[j]].next == Head(list, j + 1) {
        assert j > 0 ==> list[j] == kids[j - 1];
      }
    }
  }

  // --------------------------------------------------------------- unlinking

  /** The list of `d` without `n`: the link before it now skips it. */
  ghost predicate Unlinked(nodes: Nodes, nodes': Nodes, fs: Fs, d: nat, n: nat)
    requires d in fs
  {
    var kids := fs[d].kids;
    exists i :: 0 <= i < |kids| && kids[i] == n && d in nodes && n in nodes && (i > 0 ==> kids[i - 1] in nodes) &&
      nodes' == if i == 0 then nodes[d := nodes[d].(first := nodes[n].next)]
                else nodes[kids[i - 1] := nodes[kids[i - 1]].(next := nodes[n].next)]
  }

  lemma FoundAt(fs: Fs, kids: seq<nat>, n: nat, i: nat)
    requires i <= |kids| && n in kids && n !in kids[..i] && (Head(kids, i) == 0 || Head(kids, i) == n)
    requires 0 !in fs && forall c :: c in kids ==> c in fs
    ensures i < |kids| && kids[i] == n && (i > 0 ==> kids[i - 1] in kids && kids[i - 1] != 0)
  {
    assert forall j :: 0 <= j < |kids| ==> kids[j] in kids && kids[j] != 0;
    assert kids[..|kids|] == kids;
  }

  /** What unlinking leaves alone: all but the head of `d` and the links of its children. */
  lemma UnlinkedElsewhere(nodes: Nodes, nodes': Nodes, fs: Fs, d: nat, n: nat, k: nat)
    requires d in fs && Unlinked(nodes, nodes', fs, d, n) && k in nodes
    ensures k in nodes' && nodes'[k].name == nodes[k].name && nodes'[k].dir == nodes[k].dir &&
            nodes'[k].parent == nodes[k].parent
    ensures k != d ==> nodes'[k].first == nodes[k].first
    ensures k !in fs[d].kids ==> nodes'[k].next == nodes[k].next
    ensures nodes'.Keys == nodes.Keys
  {
    var kids := fs[d].kids;
    assert forall j :: 0 <= j < |kids| ==> kids[j] in kids;
  }

  lemma ListedElsewhere(nodes: Nodes, nodes': Nodes, fs: Fs, d: nat, n: nat, k: nat)
    requires LinksOk(fs) && d in fs && Unlinked(nodes, nodes', fs, d, n) && k in fs && k != d && Listed(nodes, fs, k)
    ensures Listed(nodes', fs, k)
  {
    hide LinksOk, Unlinked;
    UnlinkedElsewhere(nodes, nodes', fs, d, n, k);
    forall j | 0 <= j < |fs[k].kids|
      ensures fs[k].kids[j] in nodes' && nodes'[fs[k].kids[j]].next == Head(fs[k].kids, j + 1)
    {
      var x := fs[k].kids[j];
      assert x in fs[k].kids;
      ParentOf(fs, k, x);
      NotKid(fs, d, k, x);
      UnlinkedElsewhere(nodes, nodes', fs, d, n, x);
    }
  }

  lemma NotKid(fs: Fs, d: nat, k: nat, x: nat)
    requires LinksOk(fs) && d in fs && k in fs && k != d && x in fs && fs[x].parent == k
    ensures x !in fs[d].kids
  {
    hide LinksOk;
    if x in fs[d].kids {
      ParentOf(fs, d, x);
    }
  }

  /** After unlinking, the subtree to be freed is still linked. */
  lemma UnlinkedBelow(nodes: Nodes, nodes': Nodes, fs: Fs, n: nat)
    requires LinksOk(fs) && Tied(nodes, fs) && n in fs && n != ROOT && fs[n].parent in fs
    requires Unlinked(nodes, nodes', fs, fs[n].parent, n)
    ensures AllListed(nodes', fs, n) && n in nodes'
  {
    hide LinksOk, Tied, Unlinked, FreedList, Level, Under, Removed;
    var d := fs[n].parent;
    ParentStays(fs, n);
    KidsLevel(fs, n);
    UnderSelf(fs, n);
    BelowListed(nodes, nodes', fs, n, n);
    var freed := FreedList(fs, fs[n].kids, fs[n].depth);
    forall k | k in freed ensures k in fs && k != n && Listed(nodes', fs, k) {
      FreedBelow(fs, n, k);
      BelowListed(nodes, nodes', fs, n, k);
    }
    SubtreeListed(nodes', fs, n);
  }

  lemma UnderSelf(fs: Fs, n: nat)
    requires LinksOk(fs) && n in fs
    ensures Under(fs, n, n)
  {
  }

  lemma BelowListed(nodes: Nodes, nodes': Nodes, fs: Fs, n: nat, k: nat)
    requires LinksOk(fs) && Tied(nodes, fs) && n in fs && n != ROOT && fs[n].parent in fs && k in fs && Under(fs, k, n)
    requires Unlinked(nodes, nodes', fs, fs[n].parent, n)
    ensures Listed(nodes', fs, k)
  {
    hide LinksOk, Tied, Unlinked, Under;
    ParentStays(fs, n);
    MatchesAt(nodes, fs, k);
    ListedElsewhere(nodes, nodes', fs, fs[n].parent, n, k);
  }

  lemma FreedBelow(fs: Fs, n: nat, k: nat)
    requires LinksOk(fs) && n in fs && Level(fs, fs[n].kids, fs[n].depth) && k in FreedList(fs, fs[n].kids, fs[n].depth)
    ensures k in fs && k != n && Under(fs, k, n)
  {
    hide LinksOk, Level, FreedList, Under;
    var c := FreedUnderOne(fs, fs[n].kids, fs[n].depth, k);
    KidDepth(fs, n, c);
    UnderDepth(fs, k, c);
    UnderKids(fs, k, n);
  }

  /** Unlinking and dropping the subtree leaves records that match the tree without it. */
  lemma RemovedTied(nodes: Nodes, nodes': Nodes, fs: Fs, n: nat)
    requires LinksOk(fs) && Tied(nodes, fs) && n in fs && n != ROOT && fs[n].parent in fs
    requires Unlinked(nodes, nodes', fs, fs[n].parent, n) && n in nodes' && Level(fs, fs[n].kids, fs[n].depth)
    ensures var freed := Ids(FreedList(fs, fs[n].kids, fs[n].depth));
            Tied((nodes' - freed)[n := nodes'[n].(first := 0)] - {n}, Removed(fs, n))
  {
    hide LinksOk, Tied, Unlinked, FreedList, Level, Under, Removed, NoDup, Matches;
    var freed := Ids(FreedList(fs, fs[n].kids, fs[n].depth));
    var nodes'' := (nodes' - freed)[n := nodes'[n].(first := 0)] - {n};
    var t := Removed(fs, n);
    RemovedIsFreed(fs, n);
    KeysTied(nodes, fs);
    UnlinkedKeys(nodes, nodes', fs, fs[n].parent, n);
    forall k ensures k in t <==> k in nodes'' {
      RemovedDomain(fs, n, k);
    }
    forall k | k in t ensures Matches(nodes'', t, k) {
      RemovedMatches(nodes, nodes', nodes'', fs, n, k);
    }
    TieUp(nodes'', t);
  }

  lemma TieUp(nodes: Nodes, fs: Fs)
    requires (forall k :: k in fs <==> k in nodes) && forall k :: k in fs ==> Matches(nodes, fs, k)
    ensures Tied(nodes, fs)
  {
    hide Matches;
    assert nodes.Keys == fs.Keys;
  }

  lemma KeysTied(nodes: Nodes, fs: Fs)
    requires Tied(nodes, fs)
    ensures nodes.Keys == fs.Keys
  {
  }

  lemma UnlinkedKeys(nodes: Nodes, nodes': Nodes, fs: Fs, d: nat, n: nat)
    requires d in fs && Unlinked(nodes, nodes', fs, d, n)
    ensures nodes'.Keys == nodes.Keys
  {
  }

  lemma RemovedMatches(nodes: Nodes, nodes': Nodes, nodes'': Nodes, fs: Fs, n: nat, k: nat)
    requires LinksOk(fs) && Tied(nodes, fs) && n in fs && n != ROOT && fs[n].parent in fs
    requires Unlinked(nodes, nodes', fs, fs[n].parent, n) && k in Removed(fs, n)
    requires forall x :: x in Removed(fs, n) ==> x in nodes'' && x in nodes' && nodes''[x] == nodes'[x]
    ensures Matches(nodes'', Removed(fs, n), k)
  {
    hide LinksOk, Tied, Unlinked, Under, Removed, NoDup, Chain;
    var t, d := Removed(fs, n), fs[n].parent;
    RemovedDomain(fs, n, k);
    RemovedAt(fs, n, k);
    MatchesAt(nodes, fs, k);
    UnlinkedElsewhere(nodes, nodes', fs, d, n, k);
    forall x | x in t[k].kids ensures x in t {
      StaysDown(fs, n, k, x);
      RemovedDomain(fs, n, x);
    }
    if k == d {
      SkippedChain(nodes, nodes', fs, n);
    } else {
      ListedElsewhere(nodes, nodes', fs, d, n, k);
    }
    SameChain(nodes', nodes'', t[k].kids);
  }

  lemma SameChain(nodes: Nodes, nodes': Nodes, kids: seq<nat>)
    requires Chain(nodes, kids) && forall x :: x in kids ==> x in nodes && x in nodes' && nodes'[x] == nodes[x]
    ensures Chain(nodes', kids)
  {
    assert forall j :: 0 <= j < |kids| ==> kids[j] in kids;
  }

  lemma DropFirst(s: seq<nat>, n: nat)
    requires s != []
    ensures Drop(s, n) == if s[0] == n then s[1..] else [s[0]] + Drop(s[1..], n)
  {
  }

  lemma {:induction false} DropMiddle(a: seq<nat>, n: nat, b: seq<nat>)
    requires n !in a
    ensures Drop(a + [n] + b, n) == a + b
  {
    hide Drop;
    var s := a + [n] + b;
    DropFirst(s, n);
    if a == [] {
      assert s[1..] == b;
    } else {
      DropMiddle(a[1..], n, b);
      assert s[1..] == a[1..] + [n] + b;
    }
  }

  lemma DropAt(kids: seq<nat>, n: nat, i: nat)
    requires NoDup(kids) && i < |kids| && kids[i] == n
    ensures Drop(kids, n) == kids[..i] + kids[i + 1..]
  {
    assert n !in kids[..i];
    assert kids == kids[..i] + [n] + kids[i + 1..];
    DropMiddle(kids[..i], n, kids[i + 1..]);
  }

  lemma SkippedChain(nodes: Nodes, nodes': Nodes, fs: Fs, n: nat)
    requires LinksOk(fs) && Tied(nodes, fs) && n in fs && n != ROOT && fs[n].parent in fs
    requires Unlinked(nodes, nodes', fs, fs[n].parent, n)
    ensures var d := fs[n].parent;
            var kids := Drop(fs[d].kids, n);
            d in nodes' && nodes'[d].first == Head(kids, 0) && Chain(nodes', kids)
  {
    hide LinksOk, Tied;
    var d := fs[n].parent;
    var kids := fs[d].kids;
    KidsOf(fs, d);
    MatchesAt(nodes, fs, d);
    KidDepthAll(fs, d);
    var i :| 0 <= i < |kids| && kids[i] == n && d in nodes && n in nodes && (i > 0 ==> kids[i - 1] in nodes) &&
      nodes' == if i == 0 then nodes[d := nodes[d].(first := nodes[n].next)]
                else nodes[kids[i - 1] := nodes[kids[i - 1]].(next := nodes[n].next)];
    DropAt(kids, n, i);
    hide KidsOk;
    SkipOne(nodes, nodes', kids, d, i);
  }

  lemma KidDepthAll(fs: Fs, d: nat)
    requires LinksOk(fs) && d in fs
    ensures d !in fs[d].kids
  {
    hide LinksOk;
    KidsLevel(fs, d);
  }

  lemma SkipOne(nodes: Nodes, nodes': Nodes, kids: seq<nat>, d: nat, i: nat)
    requires NoDup(kids) && Chain(nodes, kids) && d in nodes && nodes[d].first == Head(kids, 0) && d !in kids &&
             i < |kids|
    requires nodes' == if i == 0 then nodes[d := nodes[d].(first := nodes[kids[i]].next)]
                       else nodes[kids[i - 1] := nodes[kids[i - 1]].(next := nodes[kids[i]].next)]
    ensures var rest := kids[..i] + kids[i + 1..]; nodes'[d].first == Head(rest, 0) && Chain(nodes', rest)
  {
    var rest := kids[..i] + kids[i + 1..];
    assert nodes[kids[i]].next == Head(kids, i + 1) && (i > 0 ==> kids[i - 1] in kids);
    forall j | 0 <= j < |rest| ensures rest[j] in nodes' && nodes'[rest[j]].next == Head(rest, j + 1) {
      SkipOneAt(nodes, nodes', kids, d, i, j);
    }
  }

  lemma SkipOneAt(nodes: Nodes, nodes': Nodes, kids: seq<nat>, d: nat, i: nat, j: nat)
    requires NoDup(kids) && Chain(nodes, kids) && d in nodes && d !in kids && i < |kids| && j < |kids| - 1
    requires nodes' == if i == 0 then nodes[d := nodes[d].(first := nodes[kids[i]].next)]
                       else nodes[kids[i - 1] := nodes[kids[i - 1]].(next := nodes[kids[i]].next)]
    ensures var rest := kids[..i] + kids[i + 1..]; rest[j] in nodes' && nodes'[rest[j]].next == Head(rest, j + 1)
  {
    hide Chain;
    var k := if j < i then j else j + 1;
    ChainAt(nodes, kids, k);
    ChainAt(nodes, kids, i);
    assert kids[k] != d && (i > 0 && k != i - 1 ==> kids[k] != kids[i - 1]);
    hide NoDup;
  }

  lemma ChainAt(nodes: Nodes, kids: seq<nat>, k: nat)
    requires Chain(nodes, kids) && k < |kids|
    ensures kids[k] in kids && kids[k] in nodes && nodes[kids[k]].next == Head(kids, k + 1)
  {
  }

  // ----------------------------------------------------------------- freeing

  lemma AllListedParts(nodes: Nodes, t: Fs, node: nat)
    requires AllListed(nodes, t, node)
    ensures LinksOk(t) && node in t && Level(t, t[node].kids, t[node].depth)
    ensures node in nodes && nodes[node].first == Head(t[node].kids, 0)
    ensures node !in FreedList(t, t[node].kids, t[node].depth)
  {
    hide LinksOk, FreedList, Level;
  }

  lemma ListedFirst(nodes: Nodes, t: Fs, k: nat)
    requires k in t && Listed(nodes, t, k)
    ensures k in nodes && nodes[k].first == Head(t[k].kids, 0)
  {
  }

  /** Everything below `node` is linked in `before`. */
  ghost predicate AllListed(before: Nodes, t: Fs, node: nat) {
    && LinksOk(t) && node in t && Level(t, t[node].kids, t[node].depth) && Listed(before, t, node)
    && forall k :: k in FreedList(t, t[node].kids, t[node].depth) ==> k in t && k != node && Listed(before, t, k)
  }

  /** The nodes in `done` are those freed before child `i`. */
  ghost predicate Freeing(t: Fs, node: nat, i: nat, done: seq<nat>)
    requires LinksOk(t) && node in t && Level(t, t[node].kids, t[node].depth)
  {
    var kids, d := t[node].kids, t[node].depth;
    && i <= |kids| && Level(t, kids[i..], d) && NoDup(FreedList(t, kids, d))
    && FreedList(t, kids, d) == done + FreedList(t, kids[i..], d)
  }

  lemma FreeStart(before: Nodes, t: Fs, node: nat)
    requires AllListed(before, t, node)
    ensures Freeing(t, node, 0, []) && before == before - Ids([])
  {
    hide LinksOk, Listed, FreedList, NoDup;
    var kids, d := t[node].kids, t[node].depth;
    assert kids[0..] == kids;
    FreedOnce(t, kids, d);
    assert [] + FreedList(t, kids, d) == FreedList(t, kids, d);
  }

  lemma FreeEnd(before: Nodes, t: Fs, node: nat, i: nat, done: seq<nat>)
    requires AllListed(before, t, node) && Freeing(t, node, i, done) && Head(t[node].kids, i) == 0
    ensures done == FreedList(t, t[node].kids, t[node].depth)
  {
    hide LinksOk, Listed, NoDup;
    var kids := t[node].kids;
    TreeFacts(t, node);
    assert forall j :: 0 <= j < |kids| ==> kids[j] in kids && kids[j] != 0;
    assert kids[i..] == [];
    assert done + [] == done;
  }

  lemma FreeOne(before: Nodes, done: seq<nat>, sub: seq<nat>, c: nat, rec: Rec)
    ensures (before - Ids(done) - Ids(sub))[c := rec] - {c} == before - Ids(done + sub + [c])
  {
  }

  /** Children of a freed node are freed as well. */
  lemma KidsFreedToo(t: Fs, list: seq<nat>, d: nat, k: nat, x: nat)
    requires LinksOk(t) && Level(t, list, d) && k in FreedList(t, list, d) && k in t && x in t[k].kids
    ensures x in FreedList(t, list, d)
  {
    hide LinksOk, Level, FreedList;
    var c := FreedUnderOne(t, list, d, k);
    ParentOf(t, k, x);
    assert Under(t, x, c);
    FreedIsUnder(t, list, d, x);
  }

  /** What is yet to be freed is still linked. */
  lemma RemainingListed(before: Nodes, t: Fs, list: seq<nat>, d: nat, done: seq<nat>, k: nat)
    requires LinksOk(t) && Level(t, list, d) && NoDup(done + FreedList(t, list, d))
    requires forall x :: x in FreedList(t, list, d) ==> x in t && Listed(before, t, x)
    requires k in FreedList(t, list, d)
    ensures k in t && Listed(before - Ids(done), t, k)
  {
    hide LinksOk, Level, FreedList, NoDup, Listed;
    var rest := FreedList(t, list, d);
    forall x | x in rest ensures x in before && x !in done {
      ListedFirst(before, t, x);
      NotBoth(done, rest, x);
    }
    forall x | x in t[k].kids ensures x in before - Ids(done) {
      KidsFreedToo(t, list, d, k, x);
    }
    ListedKept(before, before - Ids(done), t, k);
  }

  lemma NotBoth(a: seq<nat>, b: seq<nat>, x: nat)
    requires NoDup(a + b) && x in b
    ensures x !in a
  {
    var j :| 0 <= j < |b| && b[j] == x;
    assert (a + b)[|a| + j] == x;
    assert forall i :: 0 <= i < |a| ==> (a + b)[i] == a[i];
  }

  lemma ListedKept(before: Nodes, nodes: Nodes, t: Fs, k: nat)
    requires k in t && Listed(before, t, k) && k in nodes && forall x :: x in t[k].kids ==> x in nodes
    requires forall x :: x in nodes ==> x in before && nodes[x] == before[x]
    ensures Listed(nodes, t, k)
  {
    forall j | 0 <= j < |t[k].kids| ensures t[k].kids[j] in nodes {
      assert t[k].kids[j] in t[k].kids;
    }
  }

  /** The next child, its place in memory, and what its subtree adds. */
  lemma FreeStep(before: Nodes, t: Fs, node: nat, i: nat, done: seq<nat>)
    requires AllListed(before, t, node) && Freeing(t, node, i, done) && Head(t[node].kids, i) != 0
    ensures var c := Head(t[node].kids, i);
            && i < |t[node].kids| && c in t && Deeper(t, t[c].depth) < Deeper(t, t[node].depth)
            && AllListed(before - Ids(done), t, c)
            && c in before && c in before - Ids(done) && before[c].next == Head(t[node].kids, i + 1)
            && Freeing(t, node, i + 1, done + FreedList(t, t[c].kids, t[c].depth) + [c])
  {
    hide LinksOk, Level, FreedList, NoDup, Listed, Freeing, AllListed;
    AllListedParts(before, t, node);
    var c := Head(t[node].kids, i);
    FreeShape(before, t, node, i, done);
    DeeperShrinks(t, t[node].depth, c);
    FreeSubtree(before, t, node, i, done);
    FreeNext(before, t, node, i, done);
  }

  lemma FreeShape(before: Nodes, t: Fs, node: nat, i: nat, done: seq<nat>)
    requires AllListed(before, t, node) && Freeing(t, node, i, done) && Head(t[node].kids, i) != 0
    ensures var kids, d := t[node].kids, t[node].depth;
            && i < |kids| && kids[i] in t && t[kids[i]].depth == d + 1
            && kids[i..] != [] && kids[i..][0] == kids[i] && kids[i..][1..] == kids[i + 1..]
            && Level(t, t[kids[i]].kids, d + 1) && Level(t, kids[i + 1..], d) && Level(t, kids[i..], d)
            && FreedList(t, kids[i..], d)
               == FreedList(t, t[kids[i]].kids, d + 1) + [kids[i]] + FreedList(t, kids[i + 1..], d)
            && kids[i] in before && before[kids[i]].next == Head(kids, i + 1)
  {
    hide LinksOk, Level, FreedList, NoDup, Listed;
    var rest := t[node].kids[i..];
    LevelHead(t, rest, t[node].depth);
    FreedUnfold(t, rest, t[node].depth);
    ListedNext(before, t, node, i);
  }

  lemma FreeSubtree(before: Nodes, t: Fs, node: nat, i: nat, done: seq<nat>)
    requires AllListed(before, t, node) && Freeing(t, node, i, done) && Head(t[node].kids, i) != 0 && i < |t[node].kids|
    ensures AllListed(before - Ids(done), t, t[node].kids[i]) && t[node].kids[i] in before - Ids(done)
  {
    hide LinksOk, Level, FreedList, NoDup, Listed, Freeing, AllListed;
    AllListedParts(before, t, node);
    FreeShape(before, t, node, i, done);
    var rest, d, c := t[node].kids[i..], t[node].depth, t[node].kids[i];
    FreeRemaining(before, t, node, i, done, c);
    forall k | k in FreedList(t, t[c].kids, d + 1) ensures k in t && k != c && Listed(before - Ids(done), t, k) {
      FreeRemaining(before, t, node, i, done, k);
      SubApart(t, rest, d, k);
    }
    SubtreeListed(before - Ids(done), t, c);
  }

  lemma SubtreeListed(nodes: Nodes, t: Fs, c: nat)
    requires LinksOk(t) && c in t && Level(t, t[c].kids, t[c].depth) && Listed(nodes, t, c)
    requires forall k :: k in FreedList(t, t[c].kids, t[c].depth) ==> k in t && k != c && Listed(nodes, t, k)
    ensures AllListed(nodes, t, c) && c in nodes
  {
    hide LinksOk, Level, FreedList;
  }

  lemma FreeRemaining(before: Nodes, t: Fs, node: nat, i: nat, done: seq<nat>, k: nat)
    requires AllListed(before, t, node) && Freeing(t, node, i, done) &&
             k in FreedList(t, t[node].kids[i..], t[node].depth)
    ensures k in t && Listed(before - Ids(done), t, k)
  {
    hide LinksOk, Level, FreedList, NoDup, Listed;
    RemainingListed(before, t, t[node].kids[i..], t[node].depth, done, k);
  }

  lemma FreeNext(before: Nodes, t: Fs, node: nat, i: nat, done: seq<nat>)
    requires AllListed(before, t, node) && Freeing(t, node, i, done) && Head(t[node].kids, i) != 0 && i < |t[node].kids|
    ensures var c := t[node].kids[i];
            && c in t && Level(t, t[c].kids, t[c].depth)
            && Freeing(t, node, i + 1, done + FreedList(t, t[c].kids, t[c].depth) + [c])
  {
    hide LinksOk, Level, FreedList, NoDup, Listed;
    FreeShape(before, t, node, i, done);
    var kids, d, c := t[node].kids, t[node].depth, t[node].kids[i];
    var sub, rest := FreedList(t, t[c].kids, d + 1), FreedList(t, kids[i + 1..], d);
    assert done + (sub + [c] + rest) == done + sub + [c] + rest;
  }

  lemma ListedNext(nodes: Nodes, t: Fs, k: nat, i: nat)
    requires k in t && Listed(nodes, t, k) && i < |t[k].kids|
    ensures t[k].kids[i] in nodes && nodes[t[k].kids[i]].next == Head(t[k].kids, i + 1)
  {
  }
}
