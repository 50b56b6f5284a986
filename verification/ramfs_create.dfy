/** Creating nodes by path: `resolve_create`, `make_node` and what lookups see. */
module RamfsCreate {
  import opened Finite
  import opened Ramfs

  /** `t` is `fs` with nodes added: no node of `fs` moved, was renamed or left its directory. */
  ghost predicate Extends(fs: Fs, t: Fs) {
    forall k :: k in fs ==> k in t && Stays(fs, t, k)
  }

  ghost predicate Stays(fs: Fs, t: Fs, k: nat)
    requires k in fs && k in t
  {
    && t[k].name == fs[k].name && t[k].dir == fs[k].dir && t[k].parent == fs[k].parent && t[k].depth == fs[k].depth
    && forall c :: c in fs[k].kids ==> c in t[k].kids
  }

  lemma ExtendsTrans(fs: Fs, t: Fs, u: Fs)
    requires Extends(fs, t) && Extends(t, u)
    ensures Extends(fs, u)
  {
    forall k | k in fs ensures k in u && Stays(fs, u, k) {
      assert Stays(fs, t, k) && Stays(t, u, k);
    }
  }

  lemma AddExtends(fs: Fs, d: nat, n: nat, name: string, dir: bool)
    requires d in fs && n !in fs
    ensures Extends(fs, AddChild(fs, d, n, name, dir))
  {
  }

  /** In a tree with unique names a child is found by its name. */
  lemma ChildFound(fs: Fs, d: nat, c: nat)
    requires TreeOk(fs) && d in fs && c in fs[d].kids
    ensures c in fs && (forall x :: x in fs[d].kids ==> x in fs) && 0 !in fs && Child(fs, d, fs[c].name) == c
  {
    hide Child, PlaceOk;
    TreeFacts(fs, d);
    assert KidsOk(fs, d) && Unique(fs, d);
    var r := Child(fs, d, fs[c].name);
    assert r != 0;
  }

  /** Where a name was found in a directory, the same child is found afterwards. */
  ghost predicate SameMatch(fs: Fs, t: Fs, d: nat, s: string)
    requires LinksOk(fs) && LinksOk(t) && d in fs && d in t
  {
    TreeFacts(fs, d);
    TreeFacts(t, d);
    Child(fs, d, s) != 0 ==> Child(t, d, s) == Child(fs, d, s)
  }

  /** `t` is `fs` with nodes added, none of which hides an older one. */
  ghost predicate Matches(fs: Fs, t: Fs) {
    LinksOk(fs) && LinksOk(t) && Extends(fs, t) && forall d, s :: d in fs && d in t ==> SameMatch(fs, t, d, s)
  }

  lemma MatchesTrans(fs: Fs, t: Fs, u: Fs)
    requires Matches(fs, t) && Matches(t, u)
    ensures Matches(fs, u)
  {
    hide LinksOk, Child;
    ExtendsTrans(fs, t, u);
    forall d, s | d in fs && d in u ensures SameMatch(fs, u, d, s) {
      assert SameMatch(fs, t, d, s) && SameMatch(t, u, d, s);
    }
  }

  lemma MatchesSelf(fs: Fs)
    requires LinksOk(fs)
    ensures Matches(fs, fs)
  {
    hide LinksOk, Child;
  }

  lemma {:induction false} FindSame(fs: Fs, t: Fs, kids: seq<nat>, s: string)
    requires 0 !in fs && 0 !in t && forall c :: c in kids ==> c in fs && c in t && t[c].name == fs[c].name
    ensures FindIn(t, kids, s) == FindIn(fs, kids, s)
  {
    if kids != [] {
      FindSame(fs, t, kids[1..], s);
    }
  }

  /** A new node with a new name hides nothing, and is found by its name. */
  lemma AddMatches(fs: Fs, d: nat, n: nat, name: string, dir: bool)
    requires LinksOk(fs) && d in fs && fs[d].dir && n !in fs && n != 0 && GoodName(name) && NewName(fs, d, name)
    ensures var t := AddChild(fs, d, n, name, dir);
            && Matches(fs, t) && n in t && d in t && 0 !in t
            && (forall c :: c in t[d].kids ==> c in t) && Child(t, d, name) == n
  {
    hide LinksOk, GoodName, Child;
    var t := AddChild(fs, d, n, name, dir);
    AddLinksIff(fs, d, n, name, dir);
    AddExtends(fs, d, n, name, dir);
    TreeFacts(t, d);
    forall k, s | k in fs && k in t ensures SameMatch(fs, t, k, s) {
      ChildAfterAdd(fs, d, n, name, dir, k, s);
    }
    ChildAfterAdd(fs, d, n, name, dir, d, name);
  }

  lemma ChildAfterAdd(fs: Fs, d: nat, n: nat, name: string, dir: bool, k: nat, s: string)
    requires LinksOk(fs) && d in fs && n !in fs && n != 0 && k in fs && LinksOk(AddChild(fs, d, n, name, dir))
    ensures var t := AddChild(fs, d, n, name, dir);
            && 0 !in fs && 0 !in t
            && (forall c :: c in fs[k].kids ==> c in fs) && (forall c :: c in t[k].kids ==> c in t)
            && Child(t, k, s) == if k == d && s == name then n else Child(fs, k, s)
  {
    hide LinksOk;
    var t := AddChild(fs, d, n, name, dir);
    TreeFacts(fs, k);
    TreeFacts(t, k);
    FindSame(fs, t, fs[k].kids, s);
    assert k == d ==> t[k].kids[0] == n && t[k].kids[1..] == fs[k].kids;
  }

  /** Whatever a path found, it still finds, as long as nothing is hidden. */
  lemma {:induction false} LookupExtends(fs: Fs, t: Fs, cur: nat, segs: seq<string>)
    requires LinksOk(fs) && LinksOk(t) && Matches(fs, t) && cur in fs && Lookup(fs, cur, segs) != 0
    ensures cur in t && Lookup(t, cur, segs) == Lookup(fs, cur, segs)
    decreases |segs|
  {
    hide LinksOk, Child;
    assert Stays(fs, t, cur);
    TreeFacts(fs, cur);
    TreeFacts(t, cur);
    if segs != [] {
      if segs[0] == "." {
        LookupExtends(fs, t, cur, segs[1..]);
      } else if segs[0] == ".." {
        LookupExtends(fs, t, fs[cur].parent, segs[1..]);
      } else {
        assert SameMatch(fs, t, cur, segs[0]);
        LookupExtends(fs, t, Child(fs, cur, segs[0]), segs[1..]);
      }
    }
  }

  // --------------------------------------------------------- resolve_create

  /** What `tmalloc` hands out, in order, until it fails. */
  ghost predicate Fresh(fs: Fs, supply: seq<nat>) {
    NoDup(supply) && forall n :: n in supply ==> n !in fs && n != 0
  }

  /** Segments as a path yields them. */
  ghost predicate Plain(segs: seq<string>) {
    forall s :: s in segs ==> s != "" && '/' !in s
  }

  /** Every segment is under 64 characters. */
  ghost predicate Short(segs: seq<string>) {
    forall s :: s in segs ==> |s| < MAX_NAME
  }

  /** A segment that is neither `.` nor `..`, cut, is a proper name. */
  lemma CutIsGood(segs: seq<string>)
    requires segs != [] && Plain(segs) && segs[0] != "." && segs[0] != ".."
    ensures GoodName(Cut(segs[0])) && (|segs[0]| < MAX_NAME ==> GoodName(segs[0]))
    ensures Plain(segs[1..]) && (Short(segs) ==> |segs[0]| < MAX_NAME && Short(segs[1..]))
  {
    assert segs[0] in segs;
    assert forall s :: s in segs[1..] ==> s in segs;
  }

  lemma PlainRest(segs: seq<string>)
    requires segs != [] && Plain(segs)
    ensures Plain(segs[1..]) && (Short(segs) ==> Short(segs[1..]))
  {
    assert forall s :: s in segs[1..] ==> s in segs;
  }

  lemma UseOne(fs: Fs, supply: seq<nat>, d: nat, name: string, dir: bool)
    requires LinksOk(fs) && d in fs && fs[d].dir && Fresh(fs, supply) && supply != [] && GoodName(name)
    ensures var t := AddChild(fs, d, supply[0], name, dir);
            && LinksOk(t) && Extends(fs, t) && Fresh(t, supply[1..]) && supply[0] in t[d].kids && supply[0] in t
            && t[supply[0]].dir == dir && t[supply[0]].name == name
            && (TreeOk(fs) ==> (TreeOk(t) <==> NewName(fs, d, name)))
  {
    hide TreeOk, LinksOk, GoodName, NewName;
    var n := supply[0];
    assert n in supply;
    AddLinksIff(fs, d, n, name, dir);
    if TreeOk(fs) {
      AddKeepsIff(fs, d, n, name, dir);
    }
    AddExtends(fs, d, n, name, dir);
    assert forall x :: x in supply[1..] ==> x in supply && x != n;
  }

  /** `resolve_create` from a node: the tree, the addresses left, and the parent
      directory and name of the missing last segment, or 0. */
  ghost function Resolve(fs: Fs, cur: nat, segs: seq<string>, named: bool, supply: seq<nat>)
    : (r: (Fs, seq<nat>, nat, string))
    requires LinksOk(fs) && cur in fs && Plain(segs) && Fresh(fs, supply)
    ensures LinksOk(r.0) && Extends(fs, r.0) && Fresh(r.0, r.1)
    ensures r.2 != 0 ==> r.2 in r.0 && r.0[r.2].dir && GoodName(r.3) && NewName(r.0, r.2, r.3)
    decreases |segs|
  {
    TreeFacts(fs, cur);
    if segs == [] then (fs, supply, 0, "")
    else
      PlainRest(segs);
      if segs[0] == "." then Resolve(fs, cur, segs[1..], named, supply)
      else if segs[0] == ".." then Resolve(fs, fs[cur].parent, segs[1..], named, supply)
      else if !fs[cur].dir then (fs, supply, 0, "")
      else
        CutIsGood(segs);
        var c := Child(fs, cur, segs[0]);
        if c != 0 then Resolve(fs, c, segs[1..], named, supply)
        else if |segs| == 1 && named then
          if |segs[0]| >= MAX_NAME then (fs, supply, 0, "") else (fs, supply, cur, segs[0])
        else if supply == [] then (fs, supply, 0, "")
        else
          UseOne(fs, supply, cur, Cut(segs[0]), true);
          var t := AddChild(fs, cur, supply[0], Cut(segs[0]), true);
          var r := Resolve(t, supply[0], segs[1..], named, supply[1..]);
          ExtendsTrans(fs, t, r.0);
          r
  }

  // ------------------------------------------------- when names stay unique

  /** On its way the walk creates a directory whose name, cut to 63 characters, is
      taken in its parent. */
  ghost predicate Collides(fs: Fs, cur: nat, segs: seq<string>, named: bool, supply: seq<nat>)
    requires LinksOk(fs) && cur in fs && Plain(segs) && Fresh(fs, supply)
    decreases |segs|
  {
    TreeFacts(fs, cur);
    segs != [] &&
    (PlainRest(segs);
     if segs[0] == "." then Collides(fs, cur, segs[1..], named, supply)
     else if segs[0] == ".." then Collides(fs, fs[cur].parent, segs[1..], named, supply)
     else
       && fs[cur].dir
       && (CutIsGood(segs);
           var c := Child(fs, cur, segs[0]);
           if c != 0 then Collides(fs, c, segs[1..], named, supply)
           else
             && !(|segs| == 1 && named) && supply != []
             && (UseOne(fs, supply, cur, Cut(segs[0]), true);
                 || !NewName(fs, cur, Cut(segs[0]))
                 || Collides(AddChild(fs, cur, supply[0], Cut(segs[0]), true), supply[0], segs[1..], named,
                   supply[1..]))))
  }

  /** Two siblings of one name stay two siblings of one name. */
  lemma StaysBroken(fs: Fs, t: Fs)
    requires LinksOk(fs) && Extends(fs, t) && TreeOk(t)
    ensures TreeOk(fs)
  {
    hide PlaceOk;
    forall k | k in fs ensures KidsOk(fs, k) && Unique(fs, k) {
      assert Stays(fs, t, k) && KidsOk(t, k) && Unique(t, k);
      assert forall c :: c in fs[k].kids ==> c in fs && Stays(fs, t, c);
    }
  }

  /** Resolving keeps names unique exactly when nothing collides on the way. */
  lemma {:induction false} ResolveKeepsIff(fs: Fs, cur: nat, segs: seq<string>, named: bool, supply: seq<nat>)
    requires TreeOk(fs) && LinksOk(fs) && cur in fs && Plain(segs) && Fresh(fs, supply)
    ensures TreeOk(Resolve(fs, cur, segs, named, supply).0) <==> !Collides(fs, cur, segs, named, supply)
    decreases |segs|
  {
    hide TreeOk, LinksOk, Child, Fresh, AddChild, GoodName, NewName, Plain, Cut;
    TreeFacts(fs, cur);
    if segs != [] {
      PlainRest(segs);
      if segs[0] == "." {
        ResolveKeepsIff(fs, cur, segs[1..], named, supply);
      } else if segs[0] == ".." {
        ResolveKeepsIff(fs, fs[cur].parent, segs[1..], named, supply);
      } else if fs[cur].dir {
        CutIsGood(segs);
        var c := Child(fs, cur, segs[0]);
        if c != 0 {
          ResolveKeepsIff(fs, c, segs[1..], named, supply);
        } else if !(|segs| == 1 && named) && supply != [] {
          UseOne(fs, supply, cur, Cut(segs[0]), true);
          var t := AddChild(fs, cur, supply[0], Cut(segs[0]), true);
          if TreeOk(t) {
            ResolveKeepsIff(t, supply[0], segs[1..], named, supply[1..]);
          } else {
            var u := Resolve(t, supply[0], segs[1..], named, supply[1..]).0;
            if TreeOk(u) {
              StaysBroken(t, u);
            }
          }
        }
      }
    }
  }

  /** Short segments never collide. */
  lemma {:induction false} ShortNeverCollides(fs: Fs, cur: nat, segs: seq<string>, named: bool, supply: seq<nat>)
    requires LinksOk(fs) && cur in fs && Plain(segs) && Short(segs) && Fresh(fs, supply)
    ensures !Collides(fs, cur, segs, named, supply)
    decreases |segs|
  {
    hide LinksOk, Child, Fresh, AddChild, GoodName, Plain, Short;
    TreeFacts(fs, cur);
    if segs != [] {
      PlainRest(segs);
      if segs[0] == "." {
        ShortNeverCollides(fs, cur, segs[1..], named, supply);
      } else if segs[0] == ".." {
        ShortNeverCollides(fs, fs[cur].parent, segs[1..], named, supply);
      } else if fs[cur].dir {
        CutIsGood(segs);
        var c := Child(fs, cur, segs[0]);
        if c != 0 {
          ShortNeverCollides(fs, c, segs[1..], named, supply);
        } else if supply != [] {
          UseOne(fs, supply, cur, Cut(segs[0]), true);
          ShortNeverCollides(AddChild(fs, cur, supply[0], Cut(segs[0]), true), supply[0], segs[1..], named,
            supply[1..]);
        }
      }
    }
  }

  /** Resolving hides nothing as long as nothing collides. */
  lemma {:induction false} ResolveMatches(fs: Fs, cur: nat, segs: seq<string>, named: bool, supply: seq<nat>)
    requires LinksOk(fs) && cur in fs && Plain(segs) && Fresh(fs, supply) && !Collides(fs, cur, segs, named, supply)
    ensures Matches(fs, Resolve(fs, cur, segs, named, supply).0)
    decreases |segs|
  {
    hide LinksOk, Child, Fresh, AddChild, GoodName, NewName, Plain, Cut, Matches;
    TreeFacts(fs, cur);
    MatchesSelf(fs);
    if segs != [] {
      PlainRest(segs);
      if segs[0] == "." {
        ResolveMatches(fs, cur, segs[1..], named, supply);
      } else if segs[0] == ".." {
        ResolveMatches(fs, fs[cur].parent, segs[1..], named, supply);
      } else if fs[cur].dir {
        CutIsGood(segs);
        var c := Child(fs, cur, segs[0]);
        if c != 0 {
          ResolveMatches(fs, c, segs[1..], named, supply);
        } else if !(|segs| == 1 && named) && supply != [] {
          UseOne(fs, supply, cur, Cut(segs[0]), true);
          var t := AddChild(fs, cur, supply[0], Cut(segs[0]), true);
          FreshHead(fs, supply);
          AddMatches(fs, cur, supply[0], Cut(segs[0]), true);
          ResolveMatches(t, supply[0], segs[1..], named, supply[1..]);
          MatchesTrans(fs, t, Resolve(t, supply[0], segs[1..], named, supply[1..]).0);
        }
      }
    }
  }

  lemma FreshHead(fs: Fs, supply: seq<nat>)
    requires Fresh(fs, supply) && supply != []
    ensures supply[0] != 0 && supply[0] !in fs
  {
    assert supply[0] in supply;
  }

  // ------------------------------------------------------- the path leads back

  /** Once the missing name is found below the parent that was returned, the whole
      path leads to it. */
  lemma {:induction false} ResolvedPathLeads(fs: Fs, cur: nat, segs: seq<string>, named: bool, supply: seq<nat>,
                                             u: Fs, n: nat)
    requires LinksOk(fs) && cur in fs && Plain(segs) && Short(segs) && Fresh(fs, supply) && LinksOk(u)
    requires var r := Resolve(fs, cur, segs, named, supply);
             r.2 != 0 && Matches(r.0, u) && n in u && r.2 in u && FoundAs(u, r.2, r.3, n)
    ensures cur in u && Lookup(u, cur, segs) == n
    decreases |segs|
  {
    hide LinksOk, Child, Fresh, AddChild, GoodName, Plain, Short, NewName, Matches;
    var r := Resolve(fs, cur, segs, named, supply);
    ShortNeverCollides(fs, cur, segs, named, supply);
    ResolveMatches(fs, cur, segs, named, supply);
    MatchesTrans(fs, r.0, u);
    MatchFacts(fs, u, cur);
    TreeFacts(fs, cur);
    TreeFacts(u, cur);
    PlainRest(segs);
    if segs[0] == "." {
      ResolvedPathLeads(fs, cur, segs[1..], named, supply, u, n);
    } else if segs[0] == ".." {
      ResolvedPathLeads(fs, fs[cur].parent, segs[1..], named, supply, u, n);
    } else {
      CutIsGood(segs);
      var c := Child(fs, cur, segs[0]);
      if c != 0 {
        MatchAt(fs, u, cur, segs[0]);
        ResolvedPathLeads(fs, c, segs[1..], named, supply, u, n);
      } else if |segs| == 1 && named {
        assert segs[1..] == [];
      } else {
        UseOne(fs, supply, cur, Cut(segs[0]), true);
        FreshHead(fs, supply);
        NotFoundIsNew(fs, cur, segs[0]);
        AddMatches(fs, cur, supply[0], Cut(segs[0]), true);
        var t := AddChild(fs, cur, supply[0], Cut(segs[0]), true);
        ResolvedPathLeads(t, supply[0], segs[1..], named, supply[1..], u, n);
        ShortNeverCollides(t, supply[0], segs[1..], named, supply[1..]);
        ResolveMatches(t, supply[0], segs[1..], named, supply[1..]);
        MatchesTrans(t, r.0, u);
        MatchAt(t, u, cur, segs[0]);
      }
    }
  }

  ghost predicate FoundAs(u: Fs, d: nat, name: string, n: nat)
    requires LinksOk(u) && d in u
  {
    TreeFacts(u, d);
    u[d].dir && Child(u, d, name) == n != 0
  }

  lemma NotFoundIsNew(fs: Fs, d: nat, s: string)
    requires LinksOk(fs) && d in fs
    ensures (forall c :: c in fs[d].kids ==> c in fs) && 0 !in fs && (Child(fs, d, s) == 0 ==> NewName(fs, d, s))
  {
    TreeFacts(fs, d);
  }

  lemma MatchFacts(fs: Fs, u: Fs, k: nat)
    requires Matches(fs, u) && k in fs
    ensures LinksOk(u) && k in u && Stays(fs, u, k)
  {
  }

  lemma MatchAt(fs: Fs, u: Fs, d: nat, s: string)
    requires LinksOk(fs) && LinksOk(u) && Matches(fs, u) && d in fs
    ensures d in u && SameMatch(fs, u, d, s)
  {
  }

  /** A path with a segment of 64 characters or more leads nowhere. */
  lemma {:induction false} LongPathLost(fs: Fs, cur: nat, segs: seq<string>)
    requires LinksOk(fs) && cur in fs && !Short(segs)
    ensures Lookup(fs, cur, segs) == 0
    decreases |segs|
  {
    hide LinksOk, Child;
    TreeFacts(fs, cur);
    assert segs != [];
    assert forall s :: s in segs <==> s == segs[0] || s in segs[1..];
    if segs[0] == "." {
      LongPathLost(fs, cur, segs[1..]);
    } else if segs[0] == ".." {
      LongPathLost(fs, fs[cur].parent, segs[1..]);
    } else {
      var c := Child(fs, cur, segs[0]);
      if c != 0 {
        NamesShort(fs, cur, c);
        LongPathLost(fs, c, segs[1..]);
      }
    }
  }

  lemma NamesShort(fs: Fs, d: nat, c: nat)
    requires LinksOk(fs) && d in fs
    ensures c in fs[d].kids ==> c in fs && GoodName(fs[c].name)
  {
    if c in fs[d].kids {
      assert KidsOk(fs, d);
      assert PlaceOk(fs, c);
    }
  }
}
