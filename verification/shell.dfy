/**
  The command-line tokenizer of `tsh.c`: blanks separate, double quotes group,
  a backslash escapes one character, and `$NAME` expands from the environment.
*/
module Shell {
  const ARG_MAX: nat := 128
  const ARGV_MAX: nat := 8
  const KEY_LEN: nat := 32

  const NUL: char := '\0'

  datatype Entry = Entry(key: string, val: string)

  /** The environment table, in slot order. */
  type Env = seq<Entry>

  predicate Clean(s: string) { NUL !in s }

  predicate CleanEnv(env: Env) { forall e :: e in env ==> Clean(e.val) }

  /** `tsh_env_get`: the value of the first entry with this key, or nothing. */
  function EnvGet(env: Env, key: string): (v: string)
    ensures CleanEnv(env) ==> Clean(v)
  {
    if env == [] then "" else if env[0].key == key then env[0].val else EnvGet(env[1..], key)
  }

  // ---------------------------------------------------------- specification

  predicate Blank(c: char) { c == ' ' || c == '\t' }

  predicate Letter(c: char) { 'a' <= c <= 'z' || 'A' <= c <= 'Z' || c == '_' }

  predicate NameChar(c: char) { Letter(c) || '0' <= c <= '9' }

  function SkipBlanks(line: string, p: nat): (q: nat)
    requires p <= |line|
    ensures p <= q <= |line| && (q < |line| ==> !Blank(line[q])) && (forall k :: p <= k < q ==> Blank(line[k]))
    decreases |line| - p
  {
    if p < |line| && Blank(line[p]) then SkipBlanks(line, p + 1) else p
  }

  function NameEnd(line: string, p: nat): (q: nat)
    requires p <= |line|
    ensures p <= q <= |line|
    decreases |line| - p
  {
    if p < |line| && NameChar(line[p]) then NameEnd(line, p + 1) else p
  }

  /** Length of the variable name at `p`, 0 if there is none. */
  function NameLength(line: string, p: nat): (n: nat)
    requires p <= |line|
    ensures p + n <= |line|
  {
    if p < |line| && Letter(line[p]) then NameEnd(line, p + 1) - p else 0
  }

  /** The value of the variable named at `p`; names are cut to 31 characters. */
  function ValueAt(env: Env, line: string, p: nat): (v: string)
    requires p <= |line|
    ensures CleanEnv(env) ==> Clean(v)
  {
    var n := NameLength(line, p);
    EnvGet(env, line[p..p + if n >= KEY_LEN then KEY_LEN - 1 else n])
  }

  /** One character of a token: what it adds, the next position, the quote state. */
  function Bite(env: Env, line: string, p: nat, quoted: bool): (r: (string, nat, bool))
    requires p < |line|
    ensures p < r.1 <= |line|
    ensures Clean(line) && CleanEnv(env) ==> Clean(r.0)
  {
    var c := line[p];
    if c == '"' then ("", p + 1, !quoted)
    else if c == '\\' && p + 1 < |line| then ([line[p + 1]], p + 2, quoted)
    else if c == '$' then
      var n := NameLength(line, p + 1);
      if n > 0 then (ValueAt(env, line, p + 1), p + 1 + n, quoted) else ("$", p + 1, quoted)
    else ([c], p + 1, quoted)
  }

  predicate InToken(line: string, p: nat, quoted: bool) {
    p < |line| && (quoted || !Blank(line[p]))
  }

  /** The rest of a token from `p`, given what is read so far, and where it ends. */
  function Token(env: Env, line: string, p: nat, quoted: bool, acc: string): (r: (string, nat))
    requires p <= |line|
    ensures p <= r.1 <= |line| && (InToken(line, p, quoted) ==> p < r.1)
    ensures acc <= r.0
    ensures Clean(line) && CleanEnv(env) && Clean(acc) ==> Clean(r.0)
    decreases |line| - p
  {
    if !InToken(line, p, quoted) then (acc, p)
    else
      var (s, q, qt) := Bite(env, line, p, quoted);
      Token(env, line, q, qt, acc + s)
  }

  /** The arguments of the line from `p` on, at most `max` of them. */
  function Tokens(env: Env, line: string, p: nat, max: nat): (r: seq<string>)
    requires p <= |line|
    ensures |r| <= max
    ensures Clean(line) && CleanEnv(env) ==> forall t :: t in r ==> Clean(t)
    decreases |line| - p
  {
    if p == |line| || max == 0 then []
    else
      var q := SkipBlanks(line, p);
      if q == |line| || line[q] == '#' then []
      else
        var (t, e) := Token(env, line, q, false, "");
        [t] + Tokens(env, line, e, max - 1)
  }

  // -------------------------------------------------------------- round trip

  /** Every character escaped. */
  function Escaped(arg: string): (r: string)
    ensures |r| == 2 * |arg|
  {
    if arg == "" then "" else ['\\', arg[0]] + Escaped(arg[1..])
  }

  function Quoted(arg: string): (r: string)
    ensures |r| >= 2 && !Blank(r[0]) && r[0] != '#'
  {
    if arg == "" then "\"\"" else Escaped(arg)
  }

  function Joined(args: seq<string>): (r: string) {
    if args == [] then ""
    else if |args| == 1 then Quoted(args[0])
    else Quoted(args[0]) + " " + Joined(args[1..])
  }

  /** `s` stands in `line` at `p`. */
  predicate At(line: string, p: nat, s: string) {
    p + |s| <= |line| && line[p..p + |s|] == s
  }

  /** A token of escapes reads back, up to the blank or the end that follows. */
  lemma {:induction false} EscapedReads(env: Env, line: string, p: nat, arg: string, acc: string)
    requires At(line, p, Escaped(arg))
    requires p + 2 * |arg| < |line| ==> Blank(line[p + 2 * |arg|])
    ensures Token(env, line, p, false, acc) == (acc + arg, p + 2 * |arg|)
    decreases |arg|
  {
    hide Blank, ValueAt, NameLength;
    if arg == "" {
      assert acc + arg == acc;
    } else {
      EscapedAt(line, p, arg);
      BackslashBite(env, line, p);
      EscapedReads(env, line, p + 2, arg[1..], acc + [arg[0]]);
      assert acc + [arg[0]] + arg[1..] == acc + arg;
    }
  }

  lemma EscapedAt(line: string, p: nat, arg: string)
    requires At(line, p, Escaped(arg)) && arg != ""
    ensures p + 1 < |line| && line[p] == '\\' && line[p + 1] == arg[0] && At(line, p + 2, Escaped(arg[1..]))
  {
    var s, n := Escaped(arg), 2 * |arg|;
    assert line[p] == line[p..p + n][0] && line[p + 1] == line[p..p + n][1];
    assert line[p + 2..p + n] == s[2..];
  }

  lemma BackslashBite(env: Env, line: string, p: nat)
    requires p + 1 < |line| && line[p] == '\\'
    ensures InToken(line, p, false) && Bite(env, line, p, false) == ([line[p + 1]], p + 2, false)
  {
  }

  /** So does a quoted argument, empty or not. */
  lemma QuotedReads(env: Env, line: string, p: nat, arg: string)
    requires At(line, p, Quoted(arg))
    requires p + |Quoted(arg)| < |line| ==> Blank(line[p + |Quoted(arg)|])
    ensures Token(env, line, p, false, "") == (arg, p + |Quoted(arg)|)
  {
    if arg == "" {
      assert line[p] == line[p..p + 2][0] == '"' && line[p + 1] == line[p..p + 2][1] == '"';
      assert Token(env, line, p, false, "") == Token(env, line, p + 1, true, "");
      assert Token(env, line, p + 1, true, "") == Token(env, line, p + 2, false, "");
    } else {
      EscapedReads(env, line, p, arg, "");
      assert "" + arg == arg;
    }
  }

  lemma {:induction false} JoinedReads(env: Env, line: string, p: nat, args: seq<string>, max: nat)
    requires At(line, p, Joined(args)) && p + |Joined(args)| == |line| && |args| <= max
    ensures Tokens(env, line, p, max) == args
    decreases |args|
  {
    hide Token, Tokens, Blank, Quoted, At, Joined;
    if args == [] {
      NothingJoined(env, line, p, max);
    } else {
      FirstArgument(line, p, args);
      QuotedReads(env, line, p, args[0]);
      ReadsOne(env, line, p, max);
      var e := p + |Quoted(args[0])|;
      if |args| == 1 {
        NothingJoined(env, line, e, max - 1);
        assert args == [args[0]] + [];
      } else {
        JoinedReads(env, line, e + 1, args[1..], max - 1);
        SkipsOne(env, line, e, max - 1);
        assert [args[0]] + args[1..] == args;
      }
    }
  }

  /** The line begins with the quoted first argument, then ends or goes on after a space. */
  lemma FirstArgument(line: string, p: nat, args: seq<string>)
    requires At(line, p, Joined(args)) && p + |Joined(args)| == |line| && args != []
    ensures var e := p + |Quoted(args[0])|;
            && At(line, p, Quoted(args[0])) && p < |line| && !Blank(line[p]) && line[p] != '#' && e <= |line|
            && (if |args| == 1 then e == |line|
                else e < |line| && Blank(line[e]) && At(line, e + 1, Joined(args[1..])) &&
                     e + 1 + |Joined(args[1..])| == |line|)
  {
    hide At, Quoted, Blank;
    var a, rest := Quoted(args[0]), Joined(args[1..]);
    if |args| > 1 {
      AtConcat(line, p, a + " ", rest);
      AtConcat(line, p, a, " ");
      AtFirst(line, p + |a|, " ");
      SpaceIsBlank();
    }
    AtFirst(line, p, a);
  }

  lemma SpaceIsBlank()
    ensures Blank(' ')
  {
  }

  lemma AtConcat(line: string, p: nat, a: string, b: string)
    requires At(line, p, a + b)
    ensures At(line, p, a) && At(line, p + |a|, b)
  {
    assert line[p..p + |a|] == (a + b)[..|a|] == a;
    assert line[p + |a|..p + |a| + |b|] == (a + b)[|a|..] == b;
  }

  lemma AtFirst(line: string, p: nat, s: string)
    requires At(line, p, s) && s != ""
    ensures p < p + |s| <= |line| && line[p] == s[0]
  {
    assert line[p] == line[p..p + |s|][0];
  }

  lemma NothingJoined(env: Env, line: string, p: nat, max: nat)
    ensures |Joined([])| == 0 && (p == |line| ==> Tokens(env, line, p, max) == [])
  {
  }

  lemma ReadsOne(env: Env, line: string, p: nat, max: nat)
    requires p < |line| && !Blank(line[p]) && line[p] != '#' && max > 0
    ensures var (t, e) := Token(env, line, p, false, "");
            Tokens(env, line, p, max) == [t] + Tokens(env, line, e, max - 1)
  {
    hide Token;
    assert SkipBlanks(line, p) == p;
  }

  /** A blank before the rest changes nothing. */
  lemma SkipsOne(env: Env, line: string, p: nat, max: nat)
    requires p < |line| && Blank(line[p])
    ensures Tokens(env, line, p, max) == Tokens(env, line, p + 1, max)
  {
    hide Token;
    assert SkipBlanks(line, p) == SkipBlanks(line, p + 1);
  }

  /** Quoting is inverted by tokenizing: whatever the arguments and the environment. */
  lemma TokenizeInvertsQuoting(env: Env, args: seq<string>, max: nat)
    requires |args| <= max
    ensures Tokens(env, Joined(args), 0, max) == args
  {
    JoinedReads(env, Joined(args), 0, args, max);
  }
}
