/** `tfs_rm`: exactly one subtree goes, each node freed once, the rest is found as before. */
module RamfsRemove {
  import opened Finite
  import opened Ramfs
  import opened RamfsCreate
  import opened RamfsTheorems
  import opened RamfsNames

  /** Climbing from `k` meets `n`. */
  ghost predicate Under(fs: Fs, k: nat, n: nat)
    requires LinksOk(fs) && k in fs
    decreases fs[k].depth
  {
    PlaceFacts(fs, k);
    k == n || (k != ROOT && Under(fs, fs[k].parent, n))
  }

  lemma {:induction false} UnderDepth(fs: Fs, k: nat, n: nat)
    requires LinksOk(fs) && k in fs && n in fs && Under(fs, k, n)
    ensures fs[n].depth <= fs[k].depth && (fs[k].depth == fs[n].depth ==> k == n)
    decreases fs[k].depth
  {
    hide LinksOk;
    PlaceFacts(fs, k);
    if k != n {
      UnderDepth(fs, fs[k].parent, n);
    }
  }

  /** Two nodes at the same depth share no descendant. */
  lemma {:induction false} UnderUnique(fs: Fs, k: nat, a: nat, b: nat)
    requires LinksOk(fs) && k in fs && a in fs && b in fs && Under(fs, k, a) && Under(fs, k, b) &&
             fs[a].depth == fs[b].depth
    ensures a == b
    decreases fs[k].depth
  {
    hide LinksOk;
    PlaceFacts(fs, k);
    UnderDepth(fs, k, a);
    UnderDepth(fs, k, b);
    if k != a && k != b {
      UnderUnique(fs, fs[k].parent, a, b);
    }
  }

  // ---------------------------------------------------------- what is freed

  ghost function Deeper(fs: Fs, d: nat): set<nat> { set k | k in fs && fs[k].depth > d }

  lemma DeeperShrinks(fs: Fs, d: nat, c: nat)
    requires c in fs && fs[c].depth == d + 1
    ensures Deeper(fs, d + 1) < Deeper(fs, d)
  {
    assert c in Deeper(fs, d) && c !in Deeper(fs, d + 1);
  }

  /** A list of nodes one level below depth `d`. */
  ghost predicate Level(fs: Fs, kids: seq<nat>, d: nat) {
    NoDup(kids) && forall c :: c in kids ==> c in fs && fs[c].depth == d + 1
  }

  lemma KidsLevel(fs: Fs, k: nat)
    requires LinksOk(fs) && k in fs
    ensures Level(fs, fs[k].kids, fs[k].depth)
  {
    assert KidsOk(fs, k);
    forall c | c in fs[k].kids ensures c in fs && fs[c].depth == fs[k].depth + 1 {
      assert PlaceOk(fs, c);
    }
  }

  /** The nodes `free_children` frees, in order, from the list `kids`. */
  ghost function FreedList(fs: Fs, kids: seq<nat>, d: nat): (r: seq<nat>)
    requires LinksOk(fs) && Level(fs, kids, d)
    decreases Deeper(fs, d), |kids|
  {
    if kids == [] then []
    else
      var c := kids[0];
      KidsLevel(fs, c);
      DeeperShrinks(fs, d, c);
      FreedList(fs, fs[c].kids, d + 1) + [c] + FreedList(fs, kids[1..], d)
  }

  /** What is freed is what lies under the list. */
  lemma {:induction false} FreedIsUnder(fs: Fs, kids: seq<nat>, d: nat, k: nat)
    requires LinksOk(fs) && Level(fs, kids, d) && k in fs
    ensures k in FreedList(fs, kids, d) <==> exists c :: c in kids && Under(fs, k, c)
    decreases Deeper(fs, d), |kids|
  {
    hide LinksOk, Under;
    if kids != [] {
      var c := kids[0];
      KidsLevel(fs, c);
      DeeperShrinks(fs, d, c);
      FreedIsUnder(fs, fs[c].kids, d + 1, k);
      FreedIsUnder(fs, kids[1..], d, k);
      UnderKids(fs, k, c);
      hide FreedList;
      FreedUnfold(fs, kids, d);
      assert forall x :: x in kids <==> x == c || x in kids[1..];
    }
  }

  lemma FreedUnfold(fs: Fs, kids: seq<nat>, d: nat)
    requires LinksOk(fs) && Level(fs, kids, d) && kids != []
    ensures Level(fs, fs[kids[0]].kids, d + 1) && Level(fs, kids[1..], d)
    ensures FreedList(fs, kids, d) == FreedList(fs, fs[kids[0]].kids, d + 1) + [kids[0]] + FreedList(fs, kids[1..], d)
  {
    hide LinksOk;
    KidsLevel(fs, kids[0]);
  }

  /** A node lies under `c` if it is `c` or lies under a child of `c`. */
  lemma {:induction false} UnderKids(fs: Fs, k: nat, c: nat)
    requires LinksOk(fs) && k in fs && c in fs
    ensures Under(fs, k, c) <==> k == c || exists x :: x in fs[c].kids && x in fs && Under(fs, k, x)
    decreases fs[k].depth
  {
    hide LinksOk;
    PlaceFacts(fs, k);
    TreeFacts(fs, c);
    if k != c && k != ROOT {
      UnderKids(fs, fs[k].parent, c);
      if Under(fs, k, c) {
        if fs[k].parent == c {
          assert Under(fs, k, k);
        }
      }
    }
    if x :| x in fs[c].kids && x in fs && Under(fs, k, x) {
      ChildUnder(fs, k, x, c);
    }
  }

  lemma {:induction false} ChildUnder(fs: Fs, k: nat, x: nat, c: nat)
    requires LinksOk(fs) && k in fs && c in fs && x in fs[c].kids && x in fs && Under(fs, k, x)
    ensures Under(fs, k, c)
    decreases fs[k].depth
  {
    hide LinksOk;
    PlaceFacts(fs, k);
    if k == x {
      ParentOf(fs, c, x);
      assert Under(fs, c, c);
    } else {
      ChildUnder(fs, fs[k].parent, x, c);
    }
  }

  lemma ParentOf(fs: Fs, c: nat, x: nat)
    requires LinksOk(fs) && c in fs && x in fs[c].kids
    ensures x in fs && x != ROOT && fs[x].parent == c
  {
    assert KidsOk(fs, c);
  }

  lemma FreedIn(fs: Fs, kids: seq<nat>, d: nat, k: nat)
    requires LinksOk(fs) && Level(fs, kids, d) && k in FreedList(fs, kids, d)
    ensures k in fs
    decreases Deeper(fs, d), |kids|
  {
    hide LinksOk;
    if kids != [] {
      var c := kids[0];
      KidsLevel(fs, c);
      DeeperShrinks(fs, d, c);
      if k in FreedList(fs, fs[c].kids, d + 1) {
        FreedIn(fs, fs[c].kids, d + 1, k);
      } else if k in FreedList(fs, kids[1..], d) {
        FreedIn(fs, kids[1..], d, k);
      }
    }
  }

  /** A freed node lies under some node of the list. */
  lemma FreedUnderOne(fs: Fs, kids: seq<nat>, d: nat, k: nat) returns (c: nat)
    requires LinksOk(fs) && Level(fs, kids, d) && k in FreedList(fs, kids, d)
    ensures k in fs && c in kids && Under(fs, k, c)
  {
    hide LinksOk, Under, FreedList;
    FreedIn(fs, kids, d, k);
    FreedIsUnder(fs, kids, d, k);
    c :| c in kids && Under(fs, k, c);
  }

  /** No node is freed twice. */
  lemma {:induction false} FreedOnce(fs: Fs, kids: seq<nat>, d: nat)
    requires LinksOk(fs) && Level(fs, kids, d)
    ensures NoDup(FreedList(fs, kids, d))
    decreases Deeper(fs, d), |kids|
  {
    hide LinksOk, Under, Level, FreedList, NoDup;
    if kids == [] {
      FreedNone(fs, d);
    } else {
      var c := kids[0];
      LevelHead(fs, kids, d);
      FreedUnfold(fs, kids, d);
      DeeperShrinks(fs, d, c);
      FreedOnce(fs, fs[c].kids, d + 1);
      FreedOnce(fs, kids[1..], d);
      var sub, rest := FreedList(fs, fs[c].kids, d + 1), FreedList(fs, kids[1..], d);
      forall x | x in sub ensures x != c && x !in rest {
        SubApart(fs, kids, d, x);
      }
      forall x | x in rest ensures x != c {
        RestApart(fs, kids, d, x);
      }
      Append(sub, c, rest);
    }
  }

  lemma Append(sub: seq<nat>, c: nat, rest: seq<nat>)
    requires NoDup(sub) && NoDup(rest) && c !in sub && c !in rest && forall x :: x in sub ==> x !in rest
    ensures NoDup(sub + [c] + rest)
  {
    NoDupConcat(sub, [c]);
    assert forall x :: x in sub + [c] <==> x in sub || x == c;
    NoDupConcat(sub + [c], rest);
  }

  lemma FreedNone(fs: Fs, d: nat)
    requires LinksOk(fs)
    ensures Level(fs, [], d) && FreedList(fs, [], d) == [] && NoDup(FreedList(fs, [], d))
  {
  }

  lemma LevelHead(fs: Fs, kids: seq<nat>, d: nat)
    requires Level(fs, kids, d) && kids != []
    ensures kids[0] in fs && fs[kids[0]].depth == d + 1 && kids[0] !in kids[1..] && Level(fs, kids[1..], d)
    ensures forall c :: c in kids ==> c in fs && fs[c].depth == d + 1
  {
  }

  lemma SubApart(fs: Fs, kids: seq<nat>, d: nat, x: nat)
    requires LinksOk(fs) && Level(fs, kids, d) && kids != []
    requires Level(fs, fs[kids[0]].kids, d + 1) && x in FreedList(fs, fs[kids[0]].kids, d + 1)
    ensures x != kids[0] && Level(fs, kids[1..], d) && x !in FreedList(fs, kids[1..], d)
  {
    hide LinksOk, Under, Level, FreedList;
    LevelHead(fs, kids, d);
    var c := kids[0];
    var y := FreedUnderOne(fs, fs[c].kids, d + 1, x);
    UnderKids(fs, x, c);
    ParentOf(fs, c, y);
    KidDepth(fs, c, y);
    UnderDepth(fs, x, y);
    assert Under(fs, x, c);
    if x in FreedList(fs, kids[1..], d) {
      var z := FreedUnderOne(fs, kids[1..], d, x);
      assert z in kids;
      UnderUnique(fs, x, c, z);
    }
  }

  lemma KidDepth(fs: Fs, c: nat, y: nat)
    requires LinksOk(fs) && c in fs && y in fs[c].kids
    ensures y in fs && fs[y].depth == fs[c].depth + 1
  {
    hide LinksOk;
    KidsLevel(fs, c);
  }

  lemma RestApart(fs: Fs, kids: seq<nat>, d: nat, x: nat)
    requires LinksOk(fs) && Level(fs, kids, d) && kids != []
    requires Level(fs, kids[1..], d) && x in FreedList(fs, kids[1..], d)
    ensures x != kids[0]
  {
    hide LinksOk, Level, FreedList;
    LevelHead(fs, kids, d);
    var z := FreedUnderOne(fs, kids[1..], d, x);
    assert z in kids;
    if x == kids[0] {
      assert Under(fs, x, kids[0]);
      UnderUnique(fs, x, kids[0], z);
    }
  }

  // ------------------------------------------------------- the tree after rm

  function Drop(kids: seq<nat>, n: nat): (r: seq<nat>)
    ensures forall c :: c in r ==> c in kids
    ensures forall c :: c in kids && c != n ==> c in r
  {
    if kids == [] then []
    else if kids[0] == n then
      assert forall c :: c in kids && c != n ==> c in kids[1..];
      kids[1..]
    else
      assert forall c :: c in kids && c != n ==> c == kids[0] || c in kids[1..];
      [kids[0]] + Drop(kids[1..], n)
  }

  lemma {:induction false} DropOnce(kids: seq<nat>, n: nat)
    requires NoDup(kids)
    ensures NoDup(Drop(kids, n)) && n !in Drop(kids, n)
  {
    if kids != [] {
      assert kids[0] !in kids[1..];
      if kids[0] != n {
        DropOnce(kids[1..], n);
        NoDupConcat([kids[0]], Drop(kids[1..], n));
      }
    }
  }

  /** The tree without `n` and everything under it. */
  ghost function Removed(fs: Fs, n: nat): (r: Fs)
    requires LinksOk(fs) && n in fs && n != ROOT
  {
    map k | k in fs && !Under(fs, k, n) :: if k == fs[n].parent then fs[k].(kids := Drop(fs[k].kids, n)) else fs[k]
  }

  lemma RemovedDomain(fs: Fs, n: nat, k: nat)
    requires LinksOk(fs) && n in fs && n != ROOT
    ensures k in Removed(fs, n) <==> k in fs && !Under(fs, k, n)
  {
    hide LinksOk, Under;
  }

  /** What stays keeps its name, kind, place and children, but for `n` itself. */
  lemma RemovedAt(fs: Fs, n: nat, k: nat)
    requires LinksOk(fs) && n in fs && n != ROOT && k in fs && !Under(fs, k, n)
    ensures var t := Removed(fs, n);
            && k in t && t[k].name == fs[k].name && t[k].dir == fs[k].dir && t[k].parent == fs[k].parent
            && t[k].depth == fs[k].depth && (k != fs[n].parent ==> t[k].kids == fs[k].kids)
            && (k == fs[n].parent ==> t[k].kids == Drop(fs[k].kids, n))
            && NoDup(t[k].kids) && forall c :: c in t[k].kids <==> c in fs[k].kids && c != n
  {
    hide LinksOk, Under;
    KidsOf(fs, k);
    DropOnce(fs[k].kids, n);
    if n in fs[k].kids {
      ParentOf(fs, k, n);
    }
  }

  lemma StaysUp(fs: Fs, n: nat, k: nat)
    requires LinksOk(fs) && n in fs && k in fs && !Under(fs, k, n) && k != ROOT
    ensures fs[k].parent in fs && !Under(fs, fs[k].parent, n)
  {
    PlaceFacts(fs, k);
    hide LinksOk;
  }

  lemma StaysDown(fs: Fs, n: nat, k: nat, c: nat)
    requires LinksOk(fs) && n in fs && k in fs && !Under(fs, k, n) && c in fs[k].kids && c != n
    ensures c in fs && !Under(fs, c, n)
  {
    hide LinksOk;
    ParentOf(fs, k, c);
  }

  lemma RootStays(fs: Fs, n: nat)
    requires LinksOk(fs) && n in fs && n != ROOT
    ensures ROOT in fs && !Under(fs, ROOT, n)
  {
  }

  lemma RemovedKids(fs: Fs, n: nat, k: nat)
    requires LinksOk(fs) && n in fs && n != ROOT && k in Removed(fs, n)
    ensures KidsOk(Removed(fs, n), k)
  {
    hide LinksOk, Removed, Under, NoDup;
    var t := Removed(fs, n);
    RemovedDomain(fs, n, k);
    RemovedAt(fs, n, k);
    KidsOf(fs, k);
    forall c | c in t[k].kids ensures c in t && c != ROOT && t[c].parent == k && t[c].name == fs[c].name {
      StaysDown(fs, n, k, c);
      RemovedAt(fs, n, c);
    }
  }

  lemma KidsOf(fs: Fs, k: nat)
    requires LinksOk(fs) && k in fs
    ensures KidsOk(fs, k)
  {
  }

  lemma PlaceOf(fs: Fs, k: nat)
    requires LinksOk(fs) && k in fs
    ensures PlaceOk(fs, k)
  {
  }

  lemma RemovedPlace(fs: Fs, n: nat, k: nat)
    requires LinksOk(fs) && n in fs && n != ROOT && k in Removed(fs, n)
    ensures PlaceOk(Removed(fs, n), k)
  {
    hide LinksOk, Removed, GoodName;
    var t := Removed(fs, n);
    RemovedDomain(fs, n, k);
    RemovedAt(fs, n, k);
    PlaceOf(fs, k);
    if k != ROOT {
      StaysUp(fs, n, k);
      RemovedAt(fs, n, fs[k].parent);
      assert k != n;
    }
  }

  /** Removing keeps the tree in order and takes away exactly the subtree. */
  lemma RemoveKeeps(fs: Fs, n: nat)
    requires LinksOk(fs) && n in fs && n != ROOT
    ensures LinksOk(Removed(fs, n))
    ensures forall k :: k in fs ==> (k in Removed(fs, n) <==> !Under(fs, k, n))
  {
    hide Under, KidsOk, PlaceOk, Removed;
    RootStays(fs, n);
    var t := Removed(fs, n);
    RemovedDomain(fs, n, ROOT);
    RemovedDomain(fs, n, 0);
    forall k | k in fs ensures k in t <==> !Under(fs, k, n) {
      RemovedDomain(fs, n, k);
    }
    forall k | k in t ensures KidsOk(t, k) && PlaceOk(t, k) {
      RemovedKids(fs, n, k);
      RemovedPlace(fs, n, k);
    }
  }

  /** The removed nodes are `n` and what `free_children` frees, each once. */
  lemma RemovedIsFreed(fs: Fs, n: nat)
    requires LinksOk(fs) && n in fs && n != ROOT
    ensures Level(fs, fs[n].kids, fs[n].depth)
    ensures var freed := FreedList(fs, fs[n].kids, fs[n].depth) + [n];
            NoDup(freed) && forall k :: k in fs ==> (k !in Removed(fs, n) <==> k in freed)
  {
    hide LinksOk, Under, FreedList, NoDup, Removed;
    KidsLevel(fs, n);
    var kids, d := fs[n].kids, fs[n].depth;
    var sub := FreedList(fs, kids, d);
    FreedOnce(fs, kids, d);
    forall x | x in sub ensures x != n {
      var c := FreedUnderOne(fs, kids, d, x);
      KidDepth(fs, n, c);
      UnderDepth(fs, x, c);
    }
    NoDupConcat1(sub, n);
    RemoveKeeps(fs, n);
    forall k | k in fs ensures k !in Removed(fs, n) <==> k in sub + [n] {
      FreedIsUnder(fs, kids, d, k);
      UnderKids(fs, k, n);
      TreeFacts(fs, n);
    }
  }

  lemma NoDupConcat1(sub: seq<nat>, n: nat)
    requires NoDup(sub) && n !in sub
    ensures NoDup(sub + [n])
  {
    NoDupConcat(sub, [n]);
  }

  // ------------------------------------------------------- lookups after rm

  /** Nodes that stay have the same canonical path, so they are still found by it. */
  lemma {:induction false} RemovedCanonical(fs: Fs, n: nat, k: nat)
    requires LinksOk(fs) && n in fs && n != ROOT && k in fs && !Under(fs, k, n) && LinksOk(Removed(fs, n))
    ensures k in Removed(fs, n) && Canonical(Removed(fs, n), k) == Canonical(fs, k)
    decreases fs[k].depth
  {
    hide LinksOk, Removed;
    RemovedAt(fs, n, k);
    PlaceFacts(fs, k);
    if k != ROOT {
      StaysUp(fs, n, k);
      RemovedCanonical(fs, n, fs[k].parent);
    }
  }

  /** Unique names stay unique. */
  lemma RemoveKeepsNames(fs: Fs, n: nat)
    requires TreeOk(fs) && LinksOk(fs) && n in fs && n != ROOT
    ensures LinksOk(Removed(fs, n)) && TreeOk(Removed(fs, n))
  {
    hide LinksOk, Removed, Under, KidsOk, PlaceOk, Unique;
    RemoveKeeps(fs, n);
    var t := Removed(fs, n);
    forall k | k in t ensures KidsOk(t, k) && Unique(t, k) {
      RemovedUnique(fs, n, k);
    }
  }

  lemma RemovedUnique(fs: Fs, n: nat, k: nat)
    requires TreeOk(fs) && LinksOk(fs) && n in fs && n != ROOT && k in Removed(fs, n)
    ensures KidsOk(Removed(fs, n), k) && Unique(Removed(fs, n), k)
  {
    hide LinksOk, Removed, Under, NoDup;
    var t := Removed(fs, n);
    RemovedDomain(fs, n, k);
    RemovedAt(fs, n, k);
    RemovedKids(fs, n, k);
    KidsOfUnique(fs, k);
    forall c | c in t[k].kids ensures c in fs && t[c].name == fs[c].name {
      StaysDown(fs, n, k, c);
      RemovedAt(fs, n, c);
    }
  }

  lemma RemainingFound(fs: Fs, n: nat, k: nat)
    requires TreeOk(fs) && LinksOk(fs) && n in fs && n != ROOT && k in fs && !Under(fs, k, n)
    ensures var t := Removed(fs, n);
            LinksOk(t) && ROOT in t && Lookup(t, ROOT, Canonical(fs, k)) == k
  {
    hide TreeOk, LinksOk, Removed, Lookup, Canonical, Under;
    RemoveKeepsNames(fs, n);
    RemovedCanonical(fs, n, k);
    CanonicalFound(Removed(fs, n), k);
  }

  /** The removed subtree is not found any more. */
  lemma {:induction false} RemovedNotFound(fs: Fs, n: nat, k: nat)
    requires TreeOk(fs) && LinksOk(fs) && n in fs && n != ROOT && k in fs && Under(fs, k, n)
    ensures var t := Removed(fs, n);
            LinksOk(t) && ROOT in t && Lookup(t, ROOT, Canonical(fs, k)) == 0
    decreases fs[k].depth
  {
    hide TreeOk, LinksOk, Removed, Lookup, Child;
    RemoveKeeps(fs, n);
    var t := Removed(fs, n);
    RootStays(fs, n);
    RemovedAt(fs, n, ROOT);
    PlaceFacts(fs, k);
    var d := fs[k].parent;
    LookupParts(t, ROOT, Canonical(fs, d), [fs[k].name]);
    if k == n {
      ParentStays(fs, n);
      RemainingFound(fs, n, d);
      GoneFrom(fs, n);
    } else {
      RemovedNotFound(fs, n, d);
    }
  }

  lemma ParentStays(fs: Fs, n: nat)
    requires LinksOk(fs) && n in fs && n != ROOT
    ensures fs[n].parent in fs && !Under(fs, fs[n].parent, n)
  {
    hide LinksOk, Under;
    PlaceFacts(fs, n);
    if Under(fs, fs[n].parent, n) {
      UnderDepth(fs, fs[n].parent, n);
    }
  }

  lemma GoneFrom(fs: Fs, n: nat)
    requires TreeOk(fs) && LinksOk(fs) && n in fs && n != ROOT && LinksOk(Removed(fs, n))
    ensures fs[n].parent in Removed(fs, n) && Lookup(Removed(fs, n), fs[n].parent, [fs[n].name]) == 0
  {
    hide LinksOk, Removed, Child, Under;
    ParentStays(fs, n);
    var t, d := Removed(fs, n), fs[n].parent;
    RemovedAt(fs, n, d);
    PlaceFacts(fs, n);
    KidsOfUnique(fs, d);
    TreeFacts(t, d);
    StepDown(t, d, fs[n].name);
    var c := Child(t, d, fs[n].name);
    if c != 0 {
      StaysDown(fs, n, d, c);
      RemovedAt(fs, n, c);
    }
  }

  // -------------------------------------------------------------- histories

  datatype Op = Create(path: string, dir: bool, supply: seq<nat>) | Delete(node: nat)

  ghost predicate Legal(fs: Fs, op: Op) {
    match op
    case Create(_, _, supply) => Fresh(fs, supply)
    case Delete(n) => n in fs
  }

  ghost function Step(fs: Fs, op: Op): (r: Fs)
    requires LinksOk(fs) && Legal(fs, op)
    ensures LinksOk(r)
  {
    match op
    case Create(path, dir, supply) => Make(fs, path, dir, supply).0
    case Delete(n) => if n == ROOT then fs else RemoveKeeps(fs, n); Removed(fs, n)
  }

  ghost predicate History(fs: Fs, ops: seq<Op>, end: Fs)
    requires LinksOk(fs)
    decreases |ops|
  {
    if ops == [] then end == fs else Legal(fs, ops[0]) && History(Step(fs, ops[0]), ops[1..], end)
  }

  /** The operation creates no directory whose cut name is taken. */
  ghost predicate NoCollision(fs: Fs, op: Op)
    requires LinksOk(fs) && Legal(fs, op)
  {
    op.Create? ==>
      (PlainPath(op.path); !Collides(fs, ROOT, Segments(op.path, 0), EndsInName(op.path), op.supply))
  }

  /** No operation of the history does. */
  ghost predicate NoCollisions(fs: Fs, ops: seq<Op>)
    requires LinksOk(fs)
    decreases |ops|
  {
    ops == [] || (Legal(fs, ops[0]) && NoCollision(fs, ops[0]) && NoCollisions(Step(fs, ops[0]), ops[1..]))
  }

  lemma StepNames(fs: Fs, op: Op)
    requires TreeOk(fs) && LinksOk(fs) && Legal(fs, op)
    ensures NoCollision(fs, op) ==> TreeOk(Step(fs, op))
    ensures op.Create? ==> (TreeOk(Step(fs, op)) <==> NoCollision(fs, op))
  {
    hide TreeOk, LinksOk, Make, Removed, Collides, Segments, EndsInName;
    match op {
      case Create(path, dir, supply) => MakeKeepsIff(fs, path, dir, supply);
      case Delete(n) =>
        if n != ROOT {
          RemoveKeepsNames(fs, n);
        }
    }
  }

  /** Whatever was created and removed: the links form an acyclic tree with matching
      parent and child links, and every node is found by its canonical path if and
      only if no two siblings share a name. */
  lemma {:induction false} TreeIsSafe(fs: Fs, ops: seq<Op>, end: Fs)
    requires LinksOk(fs) && History(fs, ops, end)
    ensures LinksOk(end) && ROOT in end
    ensures (forall k :: k in end ==> Lookup(end, ROOT, Canonical(end, k)) == k) <==> TreeOk(end)
    decreases |ops|
  {
    hide TreeOk, LinksOk, Lookup, Canonical, Step, Legal;
    if ops == [] {
      AllFoundIff(end);
    } else {
      TreeIsSafe(Step(fs, ops[0]), ops[1..], end);
    }
  }

  /** Which is so as long as nothing collides. */
  lemma {:induction false} NamesStayUnique(fs: Fs, ops: seq<Op>, end: Fs)
    requires TreeOk(fs) && LinksOk(fs) && History(fs, ops, end) && NoCollisions(fs, ops)
    ensures TreeOk(end)
    decreases |ops|
  {
    hide TreeOk, LinksOk, Step, Legal, NoCollision;
    if ops != [] {
      StepNames(fs, ops[0]);
      NamesStayUnique(Step(fs, ops[0]), ops[1..], end);
    }
  }

  /** In particular when every segment ever asked for is under 64 characters. */
  lemma {:induction false} ShortHistories(fs: Fs, ops: seq<Op>, end: Fs)
    requires LinksOk(fs) && History(fs, ops, end)
    requires forall op :: op in ops && op.Create? ==> Short(Segments(op.path, 0))
    ensures NoCollisions(fs, ops)
    decreases |ops|
  {
    hide LinksOk, Step, Collides, Segments, EndsInName, Short;
    if ops != [] {
      var op := ops[0];
      assert op in ops;
      if op.Create? {
        PlainPath(op.path);
        RootIn(fs);
        ShortNeverCollides(fs, ROOT, Segments(op.path, 0), EndsInName(op.path), op.supply);
      }
      ShortHistories(Step(fs, op), ops[1..], end);
    }
  }
}
