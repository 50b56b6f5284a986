/** Canonical paths, and what names of 64 characters or more do to them. */
module RamfsNames {
  import opened Finite
  import opened Ramfs
  import opened RamfsCreate
  import opened RamfsTheorems

  /** The names from the root down to a node. */
  ghost function Canonical(fs: Fs, k: nat): (r: seq<string>)
    requires LinksOk(fs) && k in fs
    decreases fs[k].depth
  {
    PlaceFacts(fs, k);
    if k == ROOT then [] else Canonical(fs, fs[k].parent) + [fs[k].name]
  }

  lemma PlaceFacts(fs: Fs, k: nat)
    requires LinksOk(fs) && k in fs
    ensures fs[k].parent in fs
    ensures k != ROOT ==>
              var d := fs[k].parent; k in fs[d].kids && fs[k].depth == fs[d].depth + 1 && fs[d].dir
    ensures k != ROOT ==> fs[k].name != "." && fs[k].name != ".."
    ensures k == ROOT ==> fs[k].depth == 0
  {
    assert PlaceOk(fs, k);
    if k != ROOT {
      assert KidsOk(fs, fs[k].parent);
    }
  }

  /** Looking up a path in two parts. */
  lemma {:induction false} LookupParts(fs: Fs, cur: nat, a: seq<string>, b: seq<string>)
    requires LinksOk(fs) && cur in fs
    ensures Lookup(fs, cur, a + b) ==
            if Lookup(fs, cur, a) == 0 then 0 else Lookup(fs, Lookup(fs, cur, a), b)
    decreases |a|
  {
    hide LinksOk, Child;
    TreeFacts(fs, cur);
    if a == [] {
      assert a + b == b;
    } else {
      assert (a + b)[1..] == a[1..] + b && (a + b)[0] == a[0];
      if a[0] == "." {
        LookupParts(fs, cur, a[1..], b);
      } else if a[0] == ".." {
        LookupParts(fs, fs[cur].parent, a[1..], b);
      } else if fs[cur].dir && Child(fs, cur, a[0]) != 0 {
        LookupParts(fs, Child(fs, cur, a[0]), a[1..], b);
      }
    }
  }

  lemma StepDown(fs: Fs, d: nat, name: string)
    requires LinksOk(fs) && d in fs && fs[d].dir && name != "." && name != ".."
    ensures (forall c :: c in fs[d].kids ==> c in fs) && 0 !in fs && Lookup(fs, d, [name]) == Child(fs, d, name)
  {
    hide LinksOk, Child;
    TreeFacts(fs, d);
  }

  /** With unique names every node is found by its canonical path. */
  lemma {:induction false} CanonicalFound(fs: Fs, k: nat)
    requires TreeOk(fs) && LinksOk(fs) && k in fs
    ensures ROOT in fs && Lookup(fs, ROOT, Canonical(fs, k)) == k
    decreases fs[k].depth
  {
    hide TreeOk, LinksOk, Child;
    RootIn(fs);
    PlaceFacts(fs, k);
    if k != ROOT {
      var d, name := fs[k].parent, fs[k].name;
      CanonicalFound(fs, d);
      LookupParts(fs, ROOT, Canonical(fs, d), [name]);
      ChildFound(fs, d, k);
      StepDown(fs, d, name);
    }
  }

  /** And not without: every node is found by its canonical path if and only if no
      two siblings have the same name. */
  lemma AllFoundIff(fs: Fs)
    requires LinksOk(fs)
    ensures ROOT in fs
    ensures (forall k :: k in fs ==> Lookup(fs, ROOT, Canonical(fs, k)) == k) <==> TreeOk(fs)
  {
    hide LinksOk, Lookup, Canonical, KidsOk, Unique;
    RootIn(fs);
    if TreeOk(fs) {
      forall k | k in fs ensures Lookup(fs, ROOT, Canonical(fs, k)) == k {
        CanonicalFound(fs, k);
      }
    } else if forall k :: k in fs ==> Lookup(fs, ROOT, Canonical(fs, k)) == k {
      forall d | d in fs ensures KidsOk(fs, d) && Unique(fs, d) {
        FoundIsUnique(fs, d);
      }
    }
  }

  lemma FoundIsUnique(fs: Fs, d: nat)
    requires LinksOk(fs) && d in fs && ROOT in fs
    requires forall k :: k in fs ==> Lookup(fs, ROOT, Canonical(fs, k)) == k
    ensures KidsOk(fs, d) && Unique(fs, d)
  {
    assert KidsOk(fs, d);
    hide LinksOk, Lookup;
    forall a, b | a in fs[d].kids && b in fs[d].kids && fs[a].name == fs[b].name ensures a == b {
      assert Canonical(fs, a) == Canonical(fs, d) + [fs[a].name] == Canonical(fs, b);
    }
  }

  /** Adding nodes changes no canonical path. */
  lemma {:induction false} CanonicalKept(fs: Fs, t: Fs, k: nat)
    requires LinksOk(fs) && LinksOk(t) && Extends(fs, t) && k in fs
    ensures k in t && Canonical(t, k) == Canonical(fs, k)
    decreases fs[k].depth
  {
    hide LinksOk;
    assert Stays(fs, t, k);
    PlaceFacts(fs, k);
    if k != ROOT {
      CanonicalKept(fs, t, fs[k].parent);
    }
  }

  /** A creation changes no canonical path, and as long as nothing collides older
      nodes are still found by theirs. */
  lemma OlderNodesFound(fs: Fs, path: string, dir: bool, supply: seq<nat>, k: nat)
    requires TreeOk(fs) && LinksOk(fs) && Fresh(fs, supply) && k in fs && ROOT in fs && Plain(Segments(path, 0))
    ensures var t := Make(fs, path, dir, supply).0;
            && k in t && Canonical(t, k) == Canonical(fs, k) && ROOT in t
            && (!Collides(fs, ROOT, Segments(path, 0), EndsInName(path), supply) ==>
              Lookup(t, ROOT, Canonical(fs, k)) == k)
  {
    hide TreeOk, LinksOk, Make, Lookup, Segments, Canonical, Collides, Plain;
    var t := Make(fs, path, dir, supply).0;
    CanonicalKept(fs, t, k);
    RootIn(t);
    MakeKeepsIff(fs, path, dir, supply);
    if TreeOk(t) {
      CanonicalFound(t, k);
    }
  }

  // -------------------------------------------------------------- long names

  /** Asking again for a directory with a long name collides with the first one. */
  lemma LongAgain(fs: Fs, s: string, y: string, supply: seq<nat>, k: nat)
    requires LinksOk(fs) && ROOT in fs && Plain([s, y]) && |s| >= MAX_NAME && Fresh(fs, supply) && supply != []
    requires fs[ROOT].dir && k in fs[ROOT].kids && k in fs && fs[k].name == Cut(s)
    ensures Collides(fs, ROOT, [s, y], true, supply)
  {
    TreeFacts(fs, ROOT);
    NamesShort(fs, ROOT, Child(fs, ROOT, s));
    hide LinksOk, Child, GoodName, Plain;
    var segs := [s, y];
    CutIsGood(segs);
    UseOne(fs, supply, ROOT, Cut(s), true);
    assert !NewName(fs, ROOT, Cut(s));
  }

  /** For instance, from boot: creating `s/x` for a long name `s` succeeds, the node
      is not found by that path, and creating `s/y` then leaves two directories of
      one name. */
  lemma LongNamesCollide(s: string, x: string, y: string, a: nat, b: nat, c: nat, d: nat)
    requires Plain([s, x]) && Plain([s, y]) && |s| >= MAX_NAME && |x| < MAX_NAME && !Dots(x)
    requires LinksOk(Booted()) && Fresh(Booted(), [a, b])
    requires Fresh(Make(Booted(), s + "/" + x, true, [a, b]).0, [c, d])
    ensures var (t, n) := Make(Booted(), s + "/" + x, true, [a, b]);
            && n == b && TreeOk(t) && ROOT in t && Lookup(t, ROOT, [s, x]) == 0
            && !TreeOk(Make(t, s + "/" + y, true, [c, d]).0)
  {
    hide TreeOk, LinksOk, Lookup, Fresh, Collides, GoodName, Cut;
    FirstLong(s, x, a, b);
    var t := Make(Booted(), s + "/" + x, true, [a, b]).0;
    PlainParts(s, x);
    PlainParts(s, y);
    TwoSegments(s, x);
    TwoSegments(s, y);
    RootIn(t);
    assert s in [s, x];
    LongPathLost(t, ROOT, [s, x]);
    LongAgain(t, s, y, [c, d], a);
    MakeKeepsIff(t, s + "/" + y, true, [c, d]);
  }

  lemma PlainParts(s: string, x: string)
    requires Plain([s, x])
    ensures s != "" && x != "" && '/' !in s && '/' !in x
  {
    assert s in [s, x] && x in [s, x];
  }

  /** An empty directory leaves the last segment as the name of the leaf. */
  lemma LeafHere(t: Fs, a: nat, x: string, supply: seq<nat>)
    requires LinksOk(t) && a in t && t[a].dir && t[a].kids == [] && Fresh(t, supply)
    requires Plain([x]) && |x| < MAX_NAME && !Dots(x)
    ensures Resolve(t, a, [x], true, supply) == (t, supply, a, x)
  {
    TreeFacts(t, a);
    hide LinksOk, GoodName, Cut, Fresh, Plain;
    assert Child(t, a, x) == 0;
  }

  lemma FirstLong(s: string, x: string, a: nat, b: nat)
    requires Plain([s, x]) && |s| >= MAX_NAME && |x| < MAX_NAME && !Dots(x) && LinksOk(Booted()) &&
             Fresh(Booted(), [a, b])
    ensures var (t, n) := Make(Booted(), s + "/" + x, true, [a, b]);
            && n == b && TreeOk(t) && ROOT in t && a in t && t[ROOT].dir && a in t[ROOT].kids && t[a].name == Cut(s)
  {
    PlainParts(s, x);
    TwoSegments(s, x);
    FreshDiffer(a, b);
    hide TreeOk, LinksOk, GoodName, Cut, Fresh, Plain, Segments, Resolve, EndsInName;
    assert [s] + [x] == [s, x] && [a, b][1..] == [b];
    OneMissing(s, [x], [a, b]);
    var t := AddChild(Booted(), ROOT, a, Cut(s), true);
    LeafHere(t, a, x, [b]);
    TreeFacts(t, a);
    Made(Booted(), s + "/" + x, true, [a, b]);
  }

  lemma FreshDiffer(a: nat, b: nat)
    requires Fresh(Booted(), [a, b])
    ensures a != b && a != ROOT && b != ROOT && b != 0
  {
    assert [a, b][0] == a && [a, b][1] == b && a in [a, b] && b in [a, b];
  }
}
