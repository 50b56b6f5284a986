/** What a path written with any slashes, `.` and `..` means. */
module RamfsPaths {
  import opened Finite
  import opened Ramfs
  import opened RamfsCreate
  import opened RamfsTheorems
  import opened RamfsNames

  // ----------------------------------------------------------------- slashes

  function Slashes(n: nat): (r: string)
    ensures |r| == n && forall c :: c in r ==> c == '/'
  {
    seq(n, _ => '/')
  }

  /** The names, each after its slashes, and slashes at the end. */
  function Laid(names: seq<string>, gaps: seq<nat>, trail: nat): (r: string)
    requires |gaps| == |names|
  {
    if names == [] then Slashes(trail) else Slashes(gaps[0]) + names[0] + Laid(names[1..], gaps[1..], trail)
  }

  /** Only the first name may stand without a slash before it. */
  ghost predicate Separated(gaps: seq<nat>, first: bool) {
    forall i :: 0 <= i < |gaps| && (i > 0 || !first) ==> gaps[i] > 0
  }

  lemma {:induction false} SlashesSkipped(path: string, p: nat, n: nat)
    requires p + n <= |path| && path[p..p + n] == Slashes(n)
    ensures Segments(path, p) == Segments(path, p + n)
    decreases n
  {
    hide Segments;
    if n > 0 {
      assert path[p] == path[p..p + n][0] && path[p] in Slashes(n);
      SlashSkipped(path, p);
      assert path[p + 1..p + n] == path[p..p + n][1..] == Slashes(n - 1);
      SlashesSkipped(path, p + 1, n - 1);
    }
  }

  lemma {:induction false} LaidReads(path: string, p: nat, names: seq<string>, gaps: seq<nat>, trail: nat, first: bool)
    requires |gaps| == |names| && Plain(names) && Separated(gaps, first) && p <= |path|
    requires path[p..] == Laid(names, gaps, trail)
    ensures Segments(path, p) == names
    decreases |names|
  {
    hide Segments, Slashes;
    if names == [] {
      assert path[p..p + trail] == path[p..];
      SlashesSkipped(path, p, trail);
      SlashSkipped(path, p);
    } else {
      var rest := Laid(names[1..], gaps[1..], trail);
      LaterNames(names, gaps, first);
      LaidStart(names[1..], gaps[1..], trail);
      hide Laid, Plain, Separated;
      OneName(path, p, gaps[0], names[0], rest);
      LaidReads(path, p + gaps[0] + |names[0]|, names[1..], gaps[1..], trail, false);
    }
  }

  lemma LaterNames(names: seq<string>, gaps: seq<nat>, first: bool)
    requires |gaps| == |names| > 0 && Plain(names) && Separated(gaps, first)
    ensures Plain(names[1..]) && Separated(gaps[1..], false) && names[0] != "" && '/' !in names[0]
  {
    assert names[0] in names && forall x :: x in names[1..] ==> x in names;
  }

  /** One name after its slashes. */
  lemma OneName(path: string, p: nat, gap: nat, s: string, rest: string)
    requires p <= |path| && path[p..] == Slashes(gap) + s + rest && s != "" && '/' !in s
    requires rest != "" ==> rest[0] == '/'
    ensures var q := p + gap + |s|;
            q <= |path| && path[q..] == rest && Segments(path, p) == [s] + Segments(path, q)
  {
    hide Segments;
    var q := p + gap;
    ThreeParts(path, p, Slashes(gap), s, rest);
    SlashesSkipped(path, p, gap);
    assert q + |s| < |path| ==> path[q + |s|] == path[q + |s|..][0];
    SegmentsAt(path, q, s);
  }

  lemma ThreeParts(path: string, p: nat, a: string, b: string, c: string)
    requires p <= |path| && path[p..] == a + b + c
    ensures p + |a| + |b| <= |path| && path[p..p + |a|] == a && path[p + |a|..p + |a| + |b|] == b
    ensures path[p + |a| + |b|..] == c
  {
    var r := path[p..];
    assert r[..|a|] == a && r[|a|..|a| + |b|] == b && r[|a| + |b|..] == c;
    assert path[p..p + |a|] == r[..|a|] && path[p + |a|..p + |a| + |b|] == r[|a|..|a| + |b|];
    assert path[p + |a| + |b|..] == r[|a| + |b|..];
  }

  lemma LaidStart(names: seq<string>, gaps: seq<nat>, trail: nat)
    requires |gaps| == |names| && Separated(gaps, false)
    ensures var r := Laid(names, gaps, trail); r != "" ==> r[0] == '/'
  {
    if names == [] {
      assert trail > 0 ==> Slashes(trail)[0] in Slashes(trail);
    } else {
      assert Slashes(gaps[0])[0] in Slashes(gaps[0]);
    }
  }

  /** However many slashes stand between, before and after them, the segments of a
      path are its names, and the path ends in a name iff no slash follows. */
  lemma SegmentsAreNames(names: seq<string>, gaps: seq<nat>, trail: nat)
    requires |gaps| == |names| && Plain(names) && Separated(gaps, true)
    ensures Segments(Laid(names, gaps, trail), 0) == names
    ensures EndsInName(Laid(names, gaps, trail)) <==> names != [] && trail == 0
  {
    var path := Laid(names, gaps, trail);
    assert path[0..] == path;
    LaidReads(path, 0, names, gaps, trail, true);
    LaidEnd(names, gaps, trail);
  }

  lemma {:induction false} LaidEnd(names: seq<string>, gaps: seq<nat>, trail: nat)
    requires |gaps| == |names| && Plain(names)
    ensures EndsInName(Laid(names, gaps, trail)) <==> names != [] && trail == 0
    decreases |names|
  {
    var path := Laid(names, gaps, trail);
    if names == [] {
      assert trail > 0 ==> path[|path| - 1] in Slashes(trail);
    } else {
      var s, rest := names[0], Laid(names[1..], gaps[1..], trail);
      assert s in names && forall x :: x in names[1..] ==> x in names;
      LaidEnd(names[1..], gaps[1..], trail);
      if rest == "" {
        EmptyLaid(names[1..], gaps[1..], trail);
        assert path[|path| - 1] == s[|s| - 1] && s[|s| - 1] in s;
      } else {
        assert path[|path| - 1] == rest[|rest| - 1];
        if names[1..] == [] {
          assert trail > 0;
        }
      }
    }
  }

  lemma EmptyLaid(names: seq<string>, gaps: seq<nat>, trail: nat)
    requires |gaps| == |names| && Plain(names)
    ensures Laid(names, gaps, trail) == "" ==> names == [] && trail == 0
  {
    if names != [] {
      assert names[0] in names && |Laid(names, gaps, trail)| >= |names[0]|;
    }
  }

  // --------------------------------------------------------------- `.` and `..`

  /** `.` changes nothing, wherever it stands. */
  lemma DotIsHere(fs: Fs, cur: nat, a: seq<string>, b: seq<string>)
    requires LinksOk(fs) && cur in fs
    ensures Lookup(fs, cur, a + ["."] + b) == Lookup(fs, cur, a + b)
  {
    hide LinksOk, Child, Lookup;
    assert a + ["."] + b == a + (["."] + b);
    LookupParts(fs, cur, a, ["."] + b);
    LookupParts(fs, cur, a, b);
    var k := Lookup(fs, cur, a);
    if k != 0 {
      OneDot(fs, k, b);
    }
  }

  lemma OneDot(fs: Fs, k: nat, b: seq<string>)
    requires LinksOk(fs) && k in fs
    ensures Lookup(fs, k, ["."] + b) == Lookup(fs, k, b)
  {
    hide LinksOk, Child;
    TreeFacts(fs, k);
    assert (["."] + b)[1..] == b;
  }

  /** `..` undoes a step down: after a name that was found, it leads back. */
  lemma DotDotUndoes(fs: Fs, cur: nat, a: seq<string>, x: string, b: seq<string>)
    requires LinksOk(fs) && cur in fs && !Dots(x) && Lookup(fs, cur, a + [x]) != 0
    ensures Lookup(fs, cur, a + [x, ".."] + b) == Lookup(fs, cur, a + b)
  {
    hide LinksOk, Child, Lookup;
    LookupParts(fs, cur, a, [x]);
    LookupParts(fs, cur, a, [x, ".."] + b);
    assert a + [x, ".."] + b == a + ([x, ".."] + b);
    LookupParts(fs, cur, a, b);
    DownAndUp(fs, Lookup(fs, cur, a), x, b);
  }

  lemma DownAndUp(fs: Fs, k: nat, x: string, b: seq<string>)
    requires LinksOk(fs) && k in fs && !Dots(x) && Lookup(fs, k, [x]) != 0
    ensures Lookup(fs, k, [x, ".."] + b) == Lookup(fs, k, b)
  {
    hide LinksOk, Child;
    TreeFacts(fs, k);
    var c := Child(fs, k, x);
    KidUp(fs, k, c);
    assert [x, ".."] + b == [x] + ([".."] + b);
    var segs := [x] + ([".."] + b);
    assert segs[0] == x && segs[1..] == [".."] + b;
    assert [x][1..] == [] && [x][0] == x;
    OneUp(fs, c, b);
  }

  lemma KidUp(fs: Fs, k: nat, c: nat)
    requires LinksOk(fs) && k in fs
    ensures c in fs[k].kids ==> c in fs && fs[c].parent == k
  {
    assert KidsOk(fs, k);
  }

  lemma OneUp(fs: Fs, k: nat, b: seq<string>)
    requires LinksOk(fs) && k in fs
    ensures fs[k].parent in fs && Lookup(fs, k, [".."] + b) == Lookup(fs, fs[k].parent, b)
  {
    hide LinksOk, Child;
    TreeFacts(fs, k);
    assert ([".."] + b)[1..] == b && ([".."] + b)[0] == "..";
  }

  /** From a node other than the root it leads to the parent, and at the root it stays
      there. */
  lemma DotDotIsParent(fs: Fs, k: nat)
    requires TreeOk(fs) && LinksOk(fs) && k in fs
    ensures ROOT in fs && Lookup(fs, ROOT, [".."]) == ROOT
    ensures k != ROOT ==> fs[k].parent in fs && Lookup(fs, ROOT, Canonical(fs, k) + [".."]) == fs[k].parent
  {
    hide TreeOk, LinksOk, Lookup;
    RootIn(fs);
    RootUp(fs);
    PlaceFacts(fs, k);
    TreeFacts(fs, k);
    if k != ROOT {
      var d, name := fs[k].parent, fs[k].name;
      CanonicalFound(fs, k);
      CanonicalFound(fs, d);
      DotDotUndoes(fs, ROOT, Canonical(fs, d), name, []);
      assert Canonical(fs, d) + [] == Canonical(fs, d);
      assert Canonical(fs, k) + [".."] == Canonical(fs, d) + [name, ".."] + [];
    }
  }

  lemma RootUp(fs: Fs)
    requires LinksOk(fs)
    ensures ROOT in fs && Lookup(fs, ROOT, [".."]) == ROOT
  {
    assert PlaceOk(fs, ROOT);
    assert [".."][1..] == [];
  }
}
