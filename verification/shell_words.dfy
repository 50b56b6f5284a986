/**
  The grammar of a command line, piece by piece, and that the tokenizer reads every
  line of it as it should: plain and escaped characters, variables, quotes, blanks
  and comments.
*/
module ShellWords {
  import opened Shell

  /** What a word is written with. */
  datatype Piece = Bare(c: char) | Esc(c: char) | Var(name: string) | Dollar | Quote

  function Text(p: Piece): (r: string)
    ensures r != ""
  {
    match p
    case Bare(c) => [c]
    case Esc(c) => ['\\', c]
    case Var(name) => "$" + name
    case Dollar => "$"
    case Quote => "\""
  }

  /** The value of the first entry with this key, nothing if there is none. */
  ghost predicate IsValue(env: Env, key: string, v: string) {
    || (v == "" && forall i :: 0 <= i < |env| ==> env[i].key != key)
    || (exists i :: 0 <= i < |env| && env[i].key == key && env[i].val == v
                    && forall j :: 0 <= j < i ==> env[j].key != key)
  }

  lemma {:induction false} EnvGetIsValue(env: Env, key: string)
    ensures IsValue(env, key, EnvGet(env, key))
  {
    if env != [] && env[0].key != key {
      var rest, v := env[1..], EnvGet(env[1..], key);
      EnvGetIsValue(rest, key);
      if i :| 0 <= i < |rest| && rest[i].key == key && rest[i].val == v
              && forall j :: 0 <= j < i ==> rest[j].key != key {
        assert env[i + 1].key == key && env[i + 1].val == v;
        assert forall j :: 0 <= j < i + 1 ==> env[j].key != key;
      } else {
        assert forall i :: 1 <= i < |env| ==> env[i] == rest[i - 1];
      }
    } else if env != [] {
      assert env[0].key == key && env[0].val == EnvGet(env, key);
    }
  }

  /** By their ASCII codes: space and tab separate words; letters and the underscore
      begin a name, and digits go on with it. */
  lemma CharClasses(c: char)
    ensures var x := c as int;
            && (Blank(c) <==> x == 32 || x == 9)
            && (Letter(c) <==> 65 <= x < 65 + 26 || 97 <= x < 97 + 26 || x == 95)
            && (NameChar(c) <==> Letter(c) || 48 <= x < 48 + 10)
  {
  }

  /** A letter or underscore, then letters, digits and underscores. */
  predicate IsName(s: string) { s != "" && Letter(s[0]) && forall c :: c in s ==> NameChar(c) }

  /** Names count to 31 characters. */
  function Key(name: string): string { if |name| > 31 then name[..31] else name }

  function Meaning(env: Env, p: Piece): string {
    match p
    case Bare(c) => [c]
    case Esc(c) => [c]
    case Var(name) => EnvGet(env, Key(name))
    case Dollar => "$"
    case Quote => ""
  }

  predicate Special(c: char) { c == '"' || c == '\\' || c == '$' }

  /** The piece may stand here, before `follow`: a character for itself, not a blank
      unless quoted, a backslash only at the end of the line; a variable up to the end
      of its name; a dollar sign before anything that is not a name. */
  ghost predicate PieceOk(p: Piece, quoted: bool, follow: string) {
    match p
    case Bare(c) => (!Special(c) && (quoted || !Blank(c))) || (c == '\\' && follow == "")
    case Esc(_) => true
    case Var(name) => IsName(name) && (follow == "" || !NameChar(follow[0]))
    case Dollar => follow == "" || !Letter(follow[0])
    case Quote => true
  }

  function Render(ps: seq<Piece>): string { if ps == [] then "" else Text(ps[0]) + Render(ps[1..]) }

  function Read(env: Env, ps: seq<Piece>): string { if ps == [] then "" else Meaning(env, ps[0]) + Read(env, ps[1..]) }

  /** The pieces make up a word that ends before `after`: at a blank or at the end of
      the line, with the quotes closed unless the line ends. */
  ghost predicate WordOk(ps: seq<Piece>, quoted: bool, after: string) {
    if ps == [] then after == "" || (!quoted && Blank(after[0]))
    else
      && PieceOk(ps[0], quoted, Render(ps[1..]) + after)
      && WordOk(ps[1..], Turn(quoted, ps[0]), after)
  }

  // ------------------------------------------------------------------- pieces

  /** The text from `p` on. */
  ghost predicate From(line: string, p: nat, s: string) { p <= |line| && line[p..] == s }

  lemma FromStep(line: string, p: nat, a: string, b: string)
    requires From(line, p, a + b)
    ensures From(line, p + |a|, b) && p + |a| <= |line| && line[p..p + |a|] == a
    ensures forall i :: 0 <= i < |a| ==> line[p + i] == a[i]
    ensures p + |a| < |line| <==> b != ""
    ensures b != "" ==> line[p + |a|] == b[0]
  {
    assert line[p + |a|..] == line[p..][|a|..] == b;
    assert line[p..p + |a|] == line[p..][..|a|] == a;
    forall i | 0 <= i < |a| ensures line[p + i] == a[i] {
      assert line[p + i] == line[p..][i];
    }
    assert b != "" ==> line[p + |a|] == line[p..][|a|];
  }

  lemma {:induction false} NameEnds(line: string, p: nat, q: nat)
    requires p <= q <= |line| && (forall i :: p <= i < q ==> NameChar(line[i])) && (q < |line| ==> !NameChar(line[q]))
    ensures NameEnd(line, p) == q
    decreases q - p
  {
    if p < q {
      NameEnds(line, p + 1, q);
    }
  }

  /** The name standing at `p`, and what follows it. */
  lemma NameStands(line: string, p: nat, name: string, follow: string)
    requires From(line, p, name + follow) && IsName(name) && (follow == "" || !NameChar(follow[0]))
    ensures NameLength(line, p) == |name| && p + |name| <= |line| && line[p..p + |name|] == name
  {
    hide NameChar, Letter;
    FromStep(line, p, name, follow);
    assert line[p + 0] == name[0];
    forall i | p + 1 <= i < p + |name| ensures NameChar(line[i]) {
      assert line[p + (i - p)] == name[i - p] && name[i - p] in name;
    }
    NameEnds(line, p + 1, p + |name|);
  }

  lemma VarBites(env: Env, line: string, p: nat, quoted: bool, name: string, follow: string)
    requires From(line, p, "$" + name + follow) && PieceOk(Var(name), quoted, follow)
    ensures p < |line| && Bite(env, line, p, quoted) == (EnvGet(env, Key(name)), p + 1 + |name|, quoted)
  {
    assert "$" + name + follow == "$" + (name + follow);
    FromStep(line, p, "$", name + follow);
    assert line[p + 0] == "$"[0];
    NameStands(line, p + 1, name, follow);
    hide NameLength, IsName, NameChar, From, EnvGet, Letter;
    KeyStands(line, p + 1, name);
  }

  lemma KeyStands(line: string, p: nat, name: string)
    requires p + |name| <= |line| && line[p..p + |name|] == name
    ensures line[p..p + if |name| >= KEY_LEN then KEY_LEN - 1 else |name|] == Key(name)
  {
    assert |name| > 31 ==> line[p..p + 31] == line[p..p + |name|][..31];
  }

  lemma PieceReads(env: Env, line: string, p: nat, quoted: bool, piece: Piece, follow: string)
    requires From(line, p, Text(piece) + follow) && PieceOk(piece, quoted, follow)
    ensures InToken(line, p, quoted)
    ensures Bite(env, line, p, quoted)
         == (Meaning(env, piece), p + |Text(piece)|, Turn(quoted, piece))
  {
    hide NameEnd;
    FromStep(line, p, Text(piece), follow);
    assert line[p + 0] == Text(piece)[0];
    match piece
    case Esc(c) => assert line[p + 1] == Text(piece)[1];
    case Var(name) => VarBites(env, line, p, quoted, name, follow);
    case _ =>
  }

  // -------------------------------------------------------------------- words

  function Turn(quoted: bool, q: Piece): bool { if q.Quote? then !quoted else quoted }

  lemma ConsFacts(env: Env, q: Piece, ps: seq<Piece>, quoted: bool, after: string)
    ensures Render([q] + ps) == Text(q) + Render(ps) && Read(env, [q] + ps) == Meaning(env, q) + Read(env, ps)
    ensures WordOk([q] + ps, quoted, after)
       <==> PieceOk(q, quoted, Render(ps) + after) && WordOk(ps, Turn(quoted, q), after)
  {
    hide Text, Meaning, PieceOk;
    var all := [q] + ps;
    assert all[0] == q && all[1..] == ps;
  }

  lemma NoPieces(env: Env, quoted: bool, after: string)
    ensures Render([]) == "" && Read(env, []) == ""
    ensures WordOk([], quoted, after) <==> after == "" || (!quoted && Blank(after[0]))
  {
  }

  /** Every word reads as what its pieces mean, whatever the environment. */
  lemma {:induction false} WordReads(env: Env, line: string, p: nat, ps: seq<Piece>, quoted: bool,
                                     acc: string, after: string)
    requires From(line, p, Render(ps) + after) && WordOk(ps, quoted, after)
    ensures Token(env, line, p, quoted, acc) == (acc + Read(env, ps), p + |Render(ps)|)
    decreases |ps|
  {
    hide Bite, Meaning, Text, Blank, PieceOk, Render, Read, WordOk, From;
    if ps == [] {
      NoPieces(env, quoted, after);
      assert "" + after == after && acc + "" == acc;
      AtWordEnd(line, p, quoted, after);
    } else {
      var q, qs := ps[0], ps[1..];
      assert ps == [q] + qs;
      ConsFacts(env, q, qs, quoted, after);
      var rest := Render(qs) + after;
      assert Text(q) + Render(qs) + after == Text(q) + rest;
      PieceReads(env, line, p, quoted, q, rest);
      FromStep(line, p, Text(q), rest);
      WordReads(env, line, p + |Text(q)|, qs, Turn(quoted, q), acc + Meaning(env, q), after);
      assert acc + Meaning(env, q) + Read(env, qs) == acc + (Meaning(env, q) + Read(env, qs));
    }
  }

  lemma AtWordEnd(line: string, p: nat, quoted: bool, after: string)
    requires From(line, p, after) && (after == "" || (!quoted && Blank(after[0])))
    ensures p <= |line| && !InToken(line, p, quoted)
  {
    hide Blank;
    assert after != "" ==> line[p] == line[p..][0];
  }

  /** For instance, what stands between double quotes reads as itself, blanks included,
      as long as it has no quote, backslash or dollar sign. */
  lemma QuotedReadsPlain(env: Env, line: string, p: nat, s: string, after: string)
    requires From(line, p, "\"" + s + "\"" + after) && (after == "" || Blank(after[0]))
    requires forall c :: c in s ==> !Special(c)
    ensures Token(env, line, p, false, "") == (s, p + |s| + 2)
  {
    hide Blank, Special, Token, Render, Read, WordOk, From;
    NoPieces(env, false, after);
    ConsFacts(env, Quote, [], true, after);
    assert [Quote] + [] == [Quote];
    BaresThen(env, s, [Quote], true, after);
    var inner := Bares(s) + [Quote];
    ConsFacts(env, Quote, inner, false, after);
    assert Render([Quote]) == "\"" && Read(env, [Quote]) == "" && s + "" == s && "" + s == s;
    assert "\"" + (s + "\"") + after == "\"" + s + "\"" + after;
    WordReads(env, line, p, [Quote] + inner, false, "", after);
  }

  /** And outside quotes too, as long as it has no blank either. */
  lemma PlainReads(env: Env, line: string, p: nat, s: string, after: string)
    requires From(line, p, s + after) && (after == "" || Blank(after[0]))
    requires forall c :: c in s ==> !Special(c) && !Blank(c)
    ensures Token(env, line, p, false, "") == (s, p + |s|)
  {
    hide Blank, Special, Token, Render, Read, WordOk, From;
    NoPieces(env, false, after);
    BaresThen(env, s, [], false, after);
    assert Bares(s) + [] == Bares(s) && s + "" == s && "" + s == s;
    WordReads(env, line, p, Bares(s), false, "", after);
  }

  function Bares(s: string): (r: seq<Piece>) { if s == "" then [] else [Bare(s[0])] + Bares(s[1..]) }

  lemma {:induction false} BaresThen(env: Env, s: string, rest: seq<Piece>, quoted: bool, after: string)
    requires forall c :: c in s ==> !Special(c) && (quoted || !Blank(c))
    requires WordOk(rest, quoted, after)
    ensures Render(Bares(s) + rest) == s + Render(rest) && Read(env, Bares(s) + rest) == s + Read(env, rest)
    ensures WordOk(Bares(s) + rest, quoted, after)
    decreases |s|
  {
    hide Blank, Special, Render, Read, WordOk;
    if s == "" {
      assert Bares(s) + rest == rest && s + Render(rest) == Render(rest) && s + Read(env, rest) == Read(env, rest);
    } else {
      var c, t := s[0], s[1..];
      assert c in s && forall x :: x in t ==> x in s;
      BaresThen(env, t, rest, quoted, after);
      ConsFacts(env, Bare(c), Bares(t) + rest, quoted, after);
      assert Bares(s) + rest == [Bare(c)] + (Bares(t) + rest);
      HeadOff(s, Render(rest));
      HeadOff(s, Read(env, rest));
    }
  }

  lemma HeadOff(s: string, x: string)
    requires s != ""
    ensures [s[0]] + (s[1..] + x) == s + x
  {
  }

  // -------------------------------------------------------------------- lines

  ghost predicate Blanks(s: string) { forall c :: c in s ==> Blank(c) }

  /** Blanks, and perhaps a comment. */
  ghost predicate TailOk(tail: string) { exists n: nat :: EndsAt(tail, n) }

  ghost predicate EndsAt(tail: string, n: nat) { n <= |tail| && Blanks(tail[..n]) && (n < |tail| ==> tail[n] == '#') }

  /** The words, each after its blanks, and the tail. */
  function Laid(words: seq<seq<Piece>>, gaps: seq<string>, tail: string): string
    requires |gaps| == |words|
  {
    if words == [] then tail else gaps[0] + (Render(words[0]) + Laid(words[1..], gaps[1..], tail))
  }

  ghost predicate LineOk(words: seq<seq<Piece>>, gaps: seq<string>, tail: string)
    requires |gaps| == |words|
  {
    if words == [] then TailOk(tail)
    else
      && Blanks(gaps[0]) && words[0] != [] && words[0][0] != Bare('#')
      && WordOk(words[0], false, Laid(words[1..], gaps[1..], tail))
      && LineOk(words[1..], gaps[1..], tail)
  }

  function Words(env: Env, words: seq<seq<Piece>>, max: nat): (r: seq<string>) {
    if words == [] || max == 0 then [] else [Read(env, words[0])] + Words(env, words[1..], max - 1)
  }

  lemma {:induction false} SkipsTo(line: string, p: nat, q: nat)
    requires p <= q <= |line| && (forall i :: p <= i < q ==> Blank(line[i])) && (q < |line| ==> !Blank(line[q]))
    ensures SkipBlanks(line, p) == q
    decreases q - p
  {
    if p < q {
      SkipsTo(line, p + 1, q);
    }
  }

  lemma FirstChar(ps: seq<Piece>, after: string)
    requires ps != [] && WordOk(ps, false, after) && ps[0] != Bare('#')
    ensures Render(ps) != "" && !Blank(Render(ps)[0]) && Render(ps)[0] != '#'
  {
    assert Render(ps)[0] == Text(ps[0])[0];
  }

  lemma OneWord(env: Env, line: string, p: nat, gap: string, ps: seq<Piece>, after: string, max: nat)
    requires From(line, p, gap + (Render(ps) + after)) && Blanks(gap) && ps != [] && ps[0] != Bare('#')
    requires WordOk(ps, false, after) && max > 0
    ensures var e := p + |gap| + |Render(ps)|;
            && e <= |line| && From(line, e, after)
            && Tokens(env, line, p, max) == [Read(env, ps)] + Tokens(env, line, e, max - 1)
  {
    hide Token, Blank, WordOk, Render, Read, From, SkipBlanks, Tokens;
    var q := p + |gap|;
    FromStep(line, p, gap, Render(ps) + after);
    FromStep(line, q, Render(ps), after);
    FirstChar(ps, after);
    assert line[q + 0] == Render(ps)[0];
    forall i | p <= i < q ensures Blank(line[i]) {
      assert line[p + (i - p)] == gap[i - p] && gap[i - p] in gap;
    }
    SkipsTo(line, p, q);
    WordReads(env, line, q, ps, false, "", after);
    assert "" + Read(env, ps) == Read(env, ps);
    NextToken(env, line, p, q, max);
  }

  lemma NextToken(env: Env, line: string, p: nat, q: nat, max: nat)
    requires p <= q < |line| && SkipBlanks(line, p) == q && line[q] != '#' && max > 0
    ensures var (t, e) := Token(env, line, q, false, "");
            Tokens(env, line, p, max) == [t] + Tokens(env, line, e, max - 1)
  {
    hide Token, SkipBlanks;
  }

  lemma NothingLeft(env: Env, line: string, p: nat, tail: string, max: nat)
    requires From(line, p, tail) && TailOk(tail)
    ensures Tokens(env, line, p, max) == []
  {
    hide Blank, Token;
    var n: nat :| EndsAt(tail, n);
    forall i | p <= i < p + n ensures Blank(line[i]) {
      assert line[i] == line[p..][i - p] == tail[..n][i - p] && tail[..n][i - p] in tail[..n];
    }
    assert n < |tail| ==> line[p + n] == line[p..][n];
    HashIsNoBlank();
    SkipsTo(line, p, p + n);
  }

  lemma HashIsNoBlank()
    ensures !Blank('#')
  {
  }

  lemma {:induction false} LaidReads(env: Env, line: string, p: nat, words: seq<seq<Piece>>,
                                     gaps: seq<string>, tail: string, max: nat)
    requires |gaps| == |words| && LineOk(words, gaps, tail) && From(line, p, Laid(words, gaps, tail))
    ensures Tokens(env, line, p, max) == Words(env, words, max)
    decreases |words|
  {
    hide Tokens, WordOk, TailOk, Blanks, From, Render, Read;
    if max == 0 {
      NoneWanted(env, line, p, Laid(words, gaps, tail));
    } else if words == [] {
      NothingLeft(env, line, p, tail, max);
    } else {
      var after := Laid(words[1..], gaps[1..], tail);
      OneWord(env, line, p, gaps[0], words[0], after, max);
      LaidReads(env, line, p + |gaps[0]| + |Render(words[0])|, words[1..], gaps[1..], tail, max - 1);
    }
  }

  lemma NoneWanted(env: Env, line: string, p: nat, s: string)
    requires From(line, p, s)
    ensures Tokens(env, line, p, 0) == []
  {
  }

  /** Every line laid out from words, with any blanks around them and any comment at the
      end, comes back as what its words mean, up to the number asked for. */
  lemma LineReads(env: Env, words: seq<seq<Piece>>, gaps: seq<string>, tail: string, max: nat)
    requires |gaps| == |words| && LineOk(words, gaps, tail)
    ensures Tokens(env, Laid(words, gaps, tail), 0, max) == Words(env, words, max)
  {
    var line := Laid(words, gaps, tail);
    assert line[0..] == line;
    LaidReads(env, line, 0, words, gaps, tail, max);
  }

  // ------------------------------------------------------------------ every line

  /** The piece a text begins with. */
  function FirstPiece(s: string): (q: Piece)
    requires s != ""
  {
    if s[0] == '"' then Quote
    else if s[0] == '\\' && |s| > 1 then Esc(s[1])
    else if s[0] == '$' then
      if NameLength(s, 1) > 0 then Var(s[1..1 + NameLength(s, 1)]) else Dollar
    else Bare(s[0])
  }

  lemma {:induction false} NameIsMaximal(s: string, p: nat)
    requires p <= |s|
    ensures var q := NameEnd(s, p);
            && (forall i :: p <= i < q ==> NameChar(s[i])) && (q < |s| ==> !NameChar(s[q]))
    decreases |s| - p
  {
    hide NameChar;
    if p < |s| && NameChar(s[p]) {
      NameIsMaximal(s, p + 1);
    }
  }

  lemma FirstStands(s: string, quoted: bool)
    requires s != "" && (quoted || !Blank(s[0]))
    ensures var q := FirstPiece(s);
            |Text(q)| <= |s| && Text(q) == s[..|Text(q)|] && PieceOk(q, quoted, s[|Text(q)|..])
  {
    hide NameEnd, Blank;
    var q := FirstPiece(s);
    if q.Var? {
      NameIsMaximal(s, 2);
      assert forall c :: c in q.name ==> NameChar(c);
      assert Text(q) == s[..|Text(q)|];
    }
  }

  /** Every text begins with a word, perhaps an empty one. */
  lemma {:induction false} EveryWord(s: string, quoted: bool) returns (ps: seq<Piece>, after: string)
    ensures Render(ps) + after == s && WordOk(ps, quoted, after)
    ensures s != "" && (quoted || !Blank(s[0])) ==> ps != [] && |after| < |s| && ps[0] == FirstPiece(s)
    decreases |s|
  {
    hide Blank, PieceOk, Render, WordOk, FirstPiece, Text;
    if s == "" || (!quoted && Blank(s[0])) {
      ps, after := [], s;
      NoPieces([], quoted, s);
      assert "" + s == s;
    } else {
      var q := FirstPiece(s);
      FirstStands(s, quoted);
      var qs, rest := EveryWord(s[|Text(q)|..], Turn(quoted, q));
      ps, after := [q] + qs, rest;
      ConsFacts([], q, qs, quoted, rest);
      assert Text(q) + Render(qs) + rest == Text(q) + (Render(qs) + rest) == s;
    }
  }

  ghost predicate IsLayout(line: string, words: seq<seq<Piece>>, gaps: seq<string>, tail: string) {
    |gaps| == |words| && LineOk(words, gaps, tail) && Laid(words, gaps, tail) == line
  }

  lemma LayoutGrows(gap: string, ps: seq<Piece>, words: seq<seq<Piece>>, gaps: seq<string>, tail: string)
    requires |gaps| == |words| && LineOk(words, gaps, tail) && Blanks(gap) && ps != [] && ps[0] != Bare('#')
    requires WordOk(ps, false, Laid(words, gaps, tail))
    ensures IsLayout(gap + (Render(ps) + Laid(words, gaps, tail)), [ps] + words, [gap] + gaps, tail)
  {
    hide WordOk, Render, Blanks, TailOk;
    assert ([ps] + words)[1..] == words && ([gap] + gaps)[1..] == gaps;
  }

  lemma {:induction false} EveryLine(line: string) returns (words: seq<seq<Piece>>, gaps: seq<string>, tail: string)
    ensures IsLayout(line, words, gaps, tail)
    decreases |line|
  {
    hide WordOk, Render, LineOk, Laid, SkipBlanks, Blank;
    var n := SkipBlanks(line, 0);
    if n == |line| || line[n] == '#' {
      words, gaps, tail := [], [], line;
      assert EndsAt(line, n);
      OnlyTail(line);
    } else {
      var ps, after := EveryWord(line[n..], false);
      NoHash(line[n..]);
      words, gaps, tail := EveryLine(after);
      assert line == line[..n] + line[n..];
      LayoutGrows(line[..n], ps, words, gaps, tail);
      words, gaps := [ps] + words, [line[..n]] + gaps;
    }
  }

  lemma OnlyTail(tail: string)
    requires TailOk(tail)
    ensures IsLayout(tail, [], [], tail)
  {
  }

  lemma NoHash(s: string)
    requires s != "" && s[0] != '#'
    ensures FirstPiece(s) != Bare('#')
  {
  }

  /** So it is for every line there is: it is laid out from words, and the arguments
      are what they mean. */
  lemma EveryLineReads(env: Env, line: string, max: nat)
    ensures exists words, gaps, tail ::
              IsLayout(line, words, gaps, tail) && Tokens(env, line, 0, max) == Words(env, words, max)
  {
    var words, gaps, tail := EveryLine(line);
    LineReads(env, words, gaps, tail, max);
  }
}
