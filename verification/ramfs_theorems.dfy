/** What `tfs_mkdir` and `tfs_touch` promise about lookups, and exactly when. */
module RamfsTheorems {
  import opened Finite
  import opened Ramfs
  import opened RamfsCreate

  // -------------------------------------------------------------- make_node

  lemma RootIn(fs: Fs)
    requires LinksOk(fs)
    ensures ROOT in fs
  {
  }

  lemma PlainPath(path: string)
    ensures Plain(Segments(path, 0))
  {
  }

  /** `make_node`: the tree afterwards and the new node, 0 for NULL. */
  ghost function Make(fs: Fs, path: string, dir: bool, supply: seq<nat>): (r: (Fs, nat))
    requires LinksOk(fs) && Fresh(fs, supply)
    ensures LinksOk(r.0) && Extends(fs, r.0)
  {
    PlainPath(path);
    var (t, rest, d, leaf) := Resolve(fs, ROOT, Segments(path, 0), EndsInName(path), supply);
    if d == 0 || Child(t, d, leaf) != 0 || rest == [] then (t, 0)
    else
      UseOne(t, rest, d, leaf, dir);
      ExtendsTrans(fs, t, AddChild(t, d, rest[0], leaf, dir));
      (AddChild(t, d, rest[0], leaf, dir), rest[0])
  }

  /** What a successful call did: one more node below the parent found. */
  lemma Made(fs: Fs, path: string, dir: bool, supply: seq<nat>)
    requires LinksOk(fs) && Fresh(fs, supply) && Make(fs, path, dir, supply).1 != 0
    ensures Plain(Segments(path, 0)) && ROOT in fs
    ensures var (u, n) := Make(fs, path, dir, supply);
            var (t, rest, d, leaf) := Resolve(fs, ROOT, Segments(path, 0), EndsInName(path), supply);
            && d != 0 && rest != [] && n == rest[0] && u == AddChild(t, d, n, leaf, dir)
            && n !in fs && n in u && d in u && n in u[d].kids && u[n].name == leaf && u[n].dir == dir
            && LinksOk(u) && Extends(t, u) && (TreeOk(u) <==> TreeOk(t))
  {
    hide TreeOk, LinksOk, Resolve, Child, Segments, EndsInName, Plain, NewName;
    RootIn(fs);
    PlainPath(path);
    var (t, rest, d, leaf) := Resolve(fs, ROOT, Segments(path, 0), EndsInName(path), supply);
    UseOne(t, rest, d, leaf, dir);
    var u, n := AddChild(t, d, rest[0], leaf, dir), rest[0];
    assert n in rest && n !in t && forall k :: k in fs ==> k in t;
    if TreeOk(u) {
      StaysBroken(t, u);
    }
  }

  /** Creating keeps sibling names unique exactly when nothing collides on the way. */
  lemma MakeKeepsIff(fs: Fs, path: string, dir: bool, supply: seq<nat>)
    requires TreeOk(fs) && LinksOk(fs) && Fresh(fs, supply)
    ensures Plain(Segments(path, 0)) && ROOT in fs
    ensures TreeOk(Make(fs, path, dir, supply).0) <==>
              !Collides(fs, ROOT, Segments(path, 0), EndsInName(path), supply)
  {
    hide TreeOk, LinksOk, Resolve, Child, Segments, EndsInName, Plain, Collides, AddChild;
    RootIn(fs);
    PlainPath(path);
    ResolveKeepsIff(fs, ROOT, Segments(path, 0), EndsInName(path), supply);
    var (t, rest, _, _) := Resolve(fs, ROOT, Segments(path, 0), EndsInName(path), supply);
    if rest != [] {
      FreshHead(t, rest);
    }
    if Make(fs, path, dir, supply).1 != 0 {
      Made(fs, path, dir, supply);
    }
  }

  /** A created node is found again by the same path if and only if every segment
      of the path is under 64 characters. */
  lemma MadeIsFoundIff(fs: Fs, path: string, dir: bool, supply: seq<nat>)
    requires LinksOk(fs) && Fresh(fs, supply) && Make(fs, path, dir, supply).1 != 0
    ensures var (t, n) := Make(fs, path, dir, supply);
            && n !in fs && n in t && t[n].dir == dir && ROOT in t
            && (Lookup(t, ROOT, Segments(path, 0)) == n <==> Short(Segments(path, 0)))
  {
    hide TreeOk, LinksOk, Resolve, Make, Lookup, Segments, EndsInName, Plain, Short, AddChild, GoodName, NewName, Child;
    hide Matches;
    var (u, n) := Make(fs, path, dir, supply);
    Made(fs, path, dir, supply);
    RootIn(u);
    var segs, named := Segments(path, 0), EndsInName(path);
    if Short(segs) {
      var (t, rest, d, leaf) := Resolve(fs, ROOT, segs, named, supply);
      FreshHead(t, rest);
      AddMatches(t, d, n, leaf, dir);
      TreeFacts(u, d);
      assert Extends(t, u) && Stays(t, u, d);
      ResolvedPathLeads(fs, ROOT, segs, named, supply, u, n);
    } else {
      LongPathLost(u, ROOT, segs);
    }
  }

  /** A creation during which nothing collides hides no older node. */
  lemma MakeMatches(fs: Fs, path: string, dir: bool, supply: seq<nat>)
    requires LinksOk(fs) && Fresh(fs, supply) && ROOT in fs && Plain(Segments(path, 0))
    requires !Collides(fs, ROOT, Segments(path, 0), EndsInName(path), supply)
    ensures Matches(fs, Make(fs, path, dir, supply).0)
  {
    hide TreeOk, LinksOk, Resolve, Segments, EndsInName, Plain, Collides, AddChild, GoodName, NewName, Child;
    hide Matches;
    ResolveMatches(fs, ROOT, Segments(path, 0), EndsInName(path), supply);
    var (t, rest, d, leaf) := Resolve(fs, ROOT, Segments(path, 0), EndsInName(path), supply);
    if d != 0 && rest != [] {
      FreshHead(t, rest);
      AddMatches(t, d, rest[0], leaf, dir);
      MatchesTrans(fs, t, AddChild(t, d, rest[0], leaf, dir));
    }
  }

  /** As long as nothing collides, every path that led somewhere before leads to
      the same node afterwards, whether or not the call succeeded. */
  lemma MakeKeepsLookups(fs: Fs, path: string, dir: bool, supply: seq<nat>, segs: seq<string>)
    requires LinksOk(fs) && Fresh(fs, supply) && Plain(Segments(path, 0))
    requires ROOT in fs && Lookup(fs, ROOT, segs) != 0 &&
             !Collides(fs, ROOT, Segments(path, 0), EndsInName(path), supply)
    ensures var t := Make(fs, path, dir, supply).0;
            ROOT in t && Lookup(t, ROOT, segs) == Lookup(fs, ROOT, segs)
  {
    hide LinksOk, Make, Lookup, Segments, Collides, Plain, Matches;
    MakeMatches(fs, path, dir, supply);
    LookupExtends(fs, Make(fs, path, dir, supply).0, ROOT, segs);
  }

  /** A path that exists is not created again, and nothing changes. */
  lemma {:induction false} ResolveExisting(fs: Fs, cur: nat, segs: seq<string>, named: bool, supply: seq<nat>)
    requires LinksOk(fs) && cur in fs && Plain(segs) && Fresh(fs, supply) && Lookup(fs, cur, segs) != 0
    ensures Resolve(fs, cur, segs, named, supply) == (fs, supply, 0, "")
    decreases |segs|
  {
    hide LinksOk, Child, Fresh, AddChild, GoodName, Plain;
    TreeFacts(fs, cur);
    if segs != [] {
      PlainRest(segs);
      if segs[0] == "." {
        ResolveExisting(fs, cur, segs[1..], named, supply);
      } else if segs[0] == ".." {
        ResolveExisting(fs, fs[cur].parent, segs[1..], named, supply);
      } else {
        ResolveExisting(fs, Child(fs, cur, segs[0]), segs[1..], named, supply);
      }
    }
  }

  lemma MakeExisting(fs: Fs, path: string, dir: bool, supply: seq<nat>)
    requires LinksOk(fs) && Fresh(fs, supply) && ROOT in fs && Lookup(fs, ROOT, Segments(path, 0)) != 0
    ensures Make(fs, path, dir, supply) == (fs, 0)
  {
    hide LinksOk, Resolve, Lookup, Segments;
    PlainPath(path);
    ResolveExisting(fs, ROOT, Segments(path, 0), EndsInName(path), supply);
  }

  // ------------------------------------------------- when a node is returned

  /** Walking a path, creating every missing directory: the tree, the addresses
      left, and the node reached, 0 when a file is in the way or memory runs out. */
  ghost function Walk(fs: Fs, cur: nat, segs: seq<string>, supply: seq<nat>): (r: (Fs, seq<nat>, nat))
    requires LinksOk(fs) && cur in fs && Plain(segs) && Fresh(fs, supply)
    ensures LinksOk(r.0) && Fresh(r.0, r.1) && (r.2 != 0 ==> r.2 in r.0)
    decreases |segs|
  {
    TreeFacts(fs, cur);
    if segs == [] then (fs, supply, cur)
    else
      PlainRest(segs);
      if segs[0] == "." then Walk(fs, cur, segs[1..], supply)
      else if segs[0] == ".." then Walk(fs, fs[cur].parent, segs[1..], supply)
      else if !fs[cur].dir then (fs, supply, 0)
      else
        CutIsGood(segs);
        var c := Child(fs, cur, segs[0]);
        if c != 0 then Walk(fs, c, segs[1..], supply)
        else if supply == [] then (fs, supply, 0)
        else
          UseOne(fs, supply, cur, Cut(segs[0]), true);
          Walk(AddChild(fs, cur, supply[0], Cut(segs[0]), true), supply[0], segs[1..], supply[1..])
  }

  /** The walk leads where the path leads in the tree it leaves, unless a segment
      has 64 characters or more, with which no path leads anywhere. */
  lemma {:induction false} WalkLeads(fs: Fs, cur: nat, segs: seq<string>, supply: seq<nat>)
    requires LinksOk(fs) && cur in fs && Plain(segs) && Fresh(fs, supply) && Short(segs)
    ensures Matches(fs, Walk(fs, cur, segs, supply).0)
    ensures var (t, _, d) := Walk(fs, cur, segs, supply); cur in t && Lookup(t, cur, segs) == d
    decreases |segs|
  {
    hide LinksOk, Child, Fresh, AddChild, GoodName, NewName, Plain, Short, Matches;
    TreeFacts(fs, cur);
    MatchesSelf(fs);
    var t := Walk(fs, cur, segs, supply).0;
    if segs != [] {
      PlainRest(segs);
      if segs[0] == "." {
        WalkLeads(fs, cur, segs[1..], supply);
      } else if segs[0] == ".." {
        WalkLeads(fs, fs[cur].parent, segs[1..], supply);
        MatchFacts(fs, t, cur);
      } else if fs[cur].dir {
        CutIsGood(segs);
        var c := Child(fs, cur, segs[0]);
        if c != 0 {
          WalkLeads(fs, c, segs[1..], supply);
          LeadsOn(fs, t, cur, segs);
        } else if supply != [] {
          UseOne(fs, supply, cur, Cut(segs[0]), true);
          FreshHead(fs, supply);
          NotFoundIsNew(fs, cur, segs[0]);
          AddMatches(fs, cur, supply[0], Cut(segs[0]), true);
          var u := AddChild(fs, cur, supply[0], Cut(segs[0]), true);
          WalkLeads(u, supply[0], segs[1..], supply[1..]);
          LeadsOn(u, t, cur, segs);
          MatchesTrans(fs, u, t);
        }
      }
    }
  }

  lemma LeadsOn(fs: Fs, t: Fs, cur: nat, segs: seq<string>)
    requires LinksOk(fs) && LinksOk(t) && Matches(fs, t) && cur in fs && fs[cur].dir && segs != [] && !Dots(segs[0])
    ensures (forall c :: c in fs[cur].kids ==> c in fs) && 0 !in fs && cur in t
    ensures var c := Child(fs, cur, segs[0]); c != 0 ==> c in t && Lookup(t, cur, segs) == Lookup(t, c, segs[1..])
  {
    hide LinksOk, Child, Matches;
    TreeFacts(fs, cur);
    MatchFacts(fs, t, cur);
    MatchAt(fs, t, cur, segs[0]);
    TreeFacts(t, cur);
  }

  predicate Dots(s: string) { s == "." || s == ".." }

  /** A path that does not end in a proper name is walked to its end and yields no
      parent: its last directory is created like the others. */
  lemma {:induction false} ResolveIsWalk(fs: Fs, cur: nat, segs: seq<string>, named: bool, supply: seq<nat>)
    requires LinksOk(fs) && cur in fs && Plain(segs) && Fresh(fs, supply)
    requires named && segs != [] ==> Dots(segs[|segs| - 1])
    ensures var w := Walk(fs, cur, segs, supply); Resolve(fs, cur, segs, named, supply) == (w.0, w.1, 0, "")
    decreases |segs|
  {
    hide LinksOk, Child, Fresh, AddChild, GoodName, Plain, Cut;
    TreeFacts(fs, cur);
    if segs != [] {
      PlainRest(segs);
      assert |segs| > 1 ==> segs[1..][|segs| - 2] == segs[|segs| - 1];
      if segs[0] == "." {
        ResolveIsWalk(fs, cur, segs[1..], named, supply);
      } else if segs[0] == ".." {
        ResolveIsWalk(fs, fs[cur].parent, segs[1..], named, supply);
      } else if fs[cur].dir {
        CutIsGood(segs);
        var c := Child(fs, cur, segs[0]);
        if c != 0 {
          ResolveIsWalk(fs, c, segs[1..], named, supply);
        } else if supply != [] {
          UseOne(fs, supply, cur, Cut(segs[0]), true);
          ResolveIsWalk(AddChild(fs, cur, supply[0], Cut(segs[0]), true), supply[0], segs[1..], named, supply[1..]);
        }
      }
    }
  }

  /** The answer for a last name, given the tree and the node reached before it. */
  ghost function LeafAnswer(t: Fs, rest: seq<nat>, d: nat, last: string): (r: (Fs, seq<nat>, nat, string))
    requires LinksOk(t) && (d != 0 ==> d in t)
  {
    if d == 0 || !t[d].dir || (TreeFacts(t, d); Child(t, d, last) != 0) || |last| >= MAX_NAME then (t, rest, 0, "")
    else (t, rest, d, last)
  }

  /** A path that ends in a proper name is walked up to it. */
  lemma {:induction false} ResolveIsWalkToLeaf(fs: Fs, cur: nat, init: seq<string>, last: string, supply: seq<nat>)
    requires LinksOk(fs) && cur in fs && Plain(init + [last]) && Fresh(fs, supply) && !Dots(last) && Plain(init)
    ensures var (t, rest, d) := Walk(fs, cur, init, supply);
            Resolve(fs, cur, init + [last], true, supply) == LeafAnswer(t, rest, d, last)
    decreases |init|
  {
    hide LinksOk, Child, Fresh, AddChild, GoodName, Plain, Cut;
    TreeFacts(fs, cur);
    var segs := init + [last];
    if init == [] {
      CutIsGood(segs);
      assert segs == [last];
      if fs[cur].dir && Child(fs, cur, last) != 0 {
        assert segs[1..] == [];
      }
    } else {
      PlainRest(init);
      PlainRest(segs);
      assert segs[0] == init[0] && segs[1..] == init[1..] + [last];
      if init[0] == "." {
        ResolveIsWalkToLeaf(fs, cur, init[1..], last, supply);
      } else if init[0] == ".." {
        ResolveIsWalkToLeaf(fs, fs[cur].parent, init[1..], last, supply);
      } else if fs[cur].dir {
        CutIsGood(init);
        var c := Child(fs, cur, init[0]);
        if c != 0 {
          ResolveIsWalkToLeaf(fs, c, init[1..], last, supply);
        } else if supply != [] {
          UseOne(fs, supply, cur, Cut(init[0]), true);
          ResolveIsWalkToLeaf(AddChild(fs, cur, supply[0], Cut(init[0]), true), supply[0], init[1..], last,
            supply[1..]);
        }
      }
    }
  }

  lemma NamedHasSegments(path: string)
    requires EndsInName(path)
    ensures Segments(path, 0) != []
  {
    assert path[|path| - 1] != '/';
  }

  /** A path that ends in a name which is neither `.` nor `..`. */
  ghost predicate EndsProperly(path: string) {
    EndsInName(path) && (NamedHasSegments(path); var segs := Segments(path, 0); !Dots(segs[|segs| - 1]))
  }

  /** A node is returned if and only if the path ends in a proper name of less than
      64 characters, which is missing in the directory that the walk before it
      reaches, and an address is left for it. */
  lemma MakeSucceedsIff(fs: Fs, path: string, dir: bool, supply: seq<nat>, init: seq<string>, last: string)
    requires LinksOk(fs) && Fresh(fs, supply) && ROOT in fs && Segments(path, 0) == init + [last] && Plain(init)
    ensures var (t, rest, d) := Walk(fs, ROOT, init, supply);
            Make(fs, path, dir, supply).1 != 0 <==>
              && EndsInName(path) && !Dots(last) && |last| < MAX_NAME
              && d != 0 && t[d].dir && NewName(t, d, last) && rest != []
  {
    hide LinksOk, Resolve, Walk, Segments, Child, AddChild, Fresh, Plain, GoodName;
    PlainPath(path);
    var segs := Segments(path, 0);
    assert segs[|segs| - 1] == last;
    if EndsInName(path) && !Dots(last) {
      ResolveIsWalkToLeaf(fs, ROOT, init, last, supply);
      var (t, rest, d) := Walk(fs, ROOT, init, supply);
      if d != 0 {
        TreeFacts(t, d);
      }
      if rest != [] {
        FreshHead(t, rest);
      }
    } else {
      ResolveIsWalk(fs, ROOT, segs, EndsInName(path), supply);
    }
  }

  /** So a path ending in a slash, in `.` or in `..` never yields a node, also not
      for `tfs_touch`; all its names are created as directories nevertheless. */
  lemma ImproperGivesNull(fs: Fs, path: string, dir: bool, supply: seq<nat>)
    requires LinksOk(fs) && Fresh(fs, supply) && ROOT in fs && !EndsProperly(path)
    ensures Plain(Segments(path, 0)) && Make(fs, path, dir, supply) == (Walk(fs, ROOT, Segments(path, 0), supply).0, 0)
  {
    hide LinksOk, Resolve, Walk, Segments, Child, AddChild, Fresh, Plain, GoodName;
    PlainPath(path);
    ResolveIsWalk(fs, ROOT, Segments(path, 0), EndsInName(path), supply);
  }

  // ---------------------------------------------------------------- examples

  lemma {:induction false} SegmentEndAt(path: string, p: nat, e: nat)
    requires p <= e <= |path| && (forall k :: p <= k < e ==> path[k] != '/') && (e < |path| ==> path[e] == '/')
    ensures SegmentEnd(path, p) == e
    decreases e - p
  {
    if p < e {
      SegmentEndAt(path, p + 1, e);
    }
  }

  /** The segment standing at `p`. */
  lemma SegmentsAt(path: string, p: nat, s: string)
    requires p + |s| <= |path| && path[p..p + |s|] == s && s != "" && '/' !in s
    requires p + |s| < |path| ==> path[p + |s|] == '/'
    ensures Segments(path, p) == [s] + Segments(path, p + |s|)
  {
    forall k | p <= k < p + |s| ensures path[k] != '/' {
      assert path[k] == path[p..p + |s|][k - p];
    }
    SegmentEndAt(path, p, p + |s|);
    assert SkipSlashes(path, p) == p;
  }

  lemma SlashSkipped(path: string, p: nat)
    ensures Segments(path, |path|) == []
    ensures p < |path| && path[p] == '/' ==> Segments(path, p) == Segments(path, p + 1)
  {
  }

  /** A two-part path. */
  lemma TwoSegments(s: string, x: string)
    requires s != "" && '/' !in s && '/' !in x
    ensures Segments(s + "/" + x, 0) == if x == "" then [s] else [s, x]
    ensures EndsInName(s + "/" + x) <==> x != ""
  {
    hide Segments;
    var path := s + "/" + x;
    PathParts(s, x);
    SegmentsAt(path, 0, s);
    SlashSkipped(path, |s|);
    if x != "" {
      SegmentsAt(path, |s| + 1, x);
    }
  }

  lemma PathParts(s: string, x: string)
    ensures var path := s + "/" + x;
            path[0..|s|] == s && path[|s|] == '/' && path[|s| + 1..|path|] == x && |path| == |s| + 1 + |x|
    ensures '/' !in x ==> (EndsInName(s + "/" + x) <==> x != "")
  {
    var path := s + "/" + x;
    assert x != "" ==> path[|path| - 1] == x[|x| - 1] && x[|x| - 1] in x;
  }

  /** A missing directory at the root of a fresh tree, and what the walk goes on with. */
  lemma OneMissing(s: string, rest: seq<string>, supply: seq<nat>)
    requires Plain([s] + rest) && !Dots(s) && Fresh(Booted(), supply) && supply != []
    ensures LinksOk(Booted()) && TreeOk(Booted()) && ROOT in Booted() && Plain(rest)
    ensures var t := AddChild(Booted(), ROOT, supply[0], Cut(s), true);
            && LinksOk(t) && TreeOk(t) && Fresh(t, supply[1..]) && supply[0] in t
            && Walk(Booted(), ROOT, [s] + rest, supply) == Walk(t, supply[0], rest, supply[1..])
            && forall named :: !(rest == [] && named) ==>
                 Resolve(Booted(), ROOT, [s] + rest, named, supply) == Resolve(t, supply[0], rest, named, supply[1..])
  {
    BootedOk();
    hide TreeOk, LinksOk, GoodName, Cut;
    var segs := [s] + rest;
    assert segs[0] == s && segs[1..] == rest;
    PlainRest(segs);
    CutIsGood(segs);
    UseOne(Booted(), supply, ROOT, Cut(s), true);
  }

  /** For instance: `touch a/` and `mkdir a/.` both create the directory `a` and
      return NULL. */
  lemma TouchMakesDirectory(supply: seq<nat>)
    requires LinksOk(Booted()) && Fresh(Booted(), supply) && supply != []
    ensures Make(Booted(), "a" + "/" + "", false, supply) == (AddChild(Booted(), ROOT, supply[0], "a", true), 0)
    ensures Make(Booted(), "a" + "/" + ".", true, supply) == (AddChild(Booted(), ROOT, supply[0], "a", true), 0)
  {
    hide TreeOk, LinksOk, Resolve, Make, Fresh, AddChild;
    var t := AddChild(Booted(), ROOT, supply[0], "a", true);
    TwoSegments("a", "");
    TwoSegments("a", ".");
    assert ["a"] + [] == ["a"] && ["a"] + ["."] == ["a", "."];
    OneMissing("a", [], supply);
    OneMissing("a", ["."], supply);
    assert Walk(t, supply[0], ["."], supply[1..])
        == Walk(t, supply[0], ["."][1..], supply[1..]) == (t, supply[1..], supply[0]);
    ImproperGivesNull(Booted(), "a" + "/" + "", false, supply);
    ImproperGivesNull(Booted(), "a" + "/" + ".", true, supply);
  }
}
