/** The shell's static state, filled by cursor-advancing loops as in `tsh.c`. */
module ShellState {
  import opened Shell

  const BUF_SIZE: nat := ARGV_MAX * ARG_MAX

  /** A C string in a buffer. */
  ghost predicate Holds(buf: seq<char>, base: nat, s: string) {
    base + |s| < |buf| && At(buf, base, s) && buf[base + |s|] == NUL && Clean(s)
  }

  /** The characters of an argument that are stored. */
  function Kept(s: string): (r: string)
    ensures |r| < ARG_MAX && |r| <= |s| && forall k :: 0 <= k < |r| ==> r[k] == s[k]
  {
    if |s| < ARG_MAX then s else s[..ARG_MAX - 1]
  }

  /** The buffer with the characters of `s` stored in a row, not yet terminated. */
  function Written(buf: seq<char>, row: nat, s: string): (r: seq<char>)
    requires |buf| == BUF_SIZE && row < ARGV_MAX
    ensures |r| == BUF_SIZE
    ensures forall k :: 0 <= k < BUF_SIZE ==>
              r[k] == if row * ARG_MAX <= k < row * ARG_MAX + |Kept(s)| then s[k - row * ARG_MAX] else buf[k]
  {
    buf[..row * ARG_MAX] + Kept(s) + buf[row * ARG_MAX + |Kept(s)|..]
  }

  /** Where the terminator of an argument goes: after all its characters, stored
      or not. */
  function EndOf(row: nat, t: string): nat { row * ARG_MAX + |t| }

  /** The buffer after an argument was read into a row. */
  function Put(buf: seq<char>, row: nat, t: string): (r: seq<char>)
    requires |buf| == BUF_SIZE && row < ARGV_MAX
    ensures |r| == BUF_SIZE
  {
    var w := Written(buf, row, t);
    if EndOf(row, t) < BUF_SIZE then w[EndOf(row, t) := NUL] else w
  }

  /** The buffer after all arguments were read, each into its row. */
  function PutAll(buf: seq<char>, args: seq<string>): (r: seq<char>)
    requires |buf| == BUF_SIZE && |args| <= ARGV_MAX
    ensures |r| == BUF_SIZE
  {
    if args == [] then buf
    else
      var n := |args| - 1;
      Put(PutAll(buf, args[..n]), n, args[n])
  }

  /** Every argument fits its row, terminator included. */
  ghost predicate Fits(args: seq<string>) { forall t :: t in args ==> |t| < ARG_MAX }

  /** Every terminator lands in the buffer. */
  ghost predicate Inside(args: seq<string>) { forall i :: 0 <= i < |args| ==> EndOf(i, args[i]) < BUF_SIZE }

  class Tokenizer {
    const argBuf: array<char>
    var env: Env

    ghost predicate Valid()
      reads this
    {
      argBuf.Length == BUF_SIZE && CleanEnv(env)
    }

    constructor ()
      ensures Valid() && env == [] && fresh(argBuf)
    {
      argBuf := new char[BUF_SIZE](_ => NUL);
      env := [];
    }

    /** The row holds what was read so far of its argument. */
    ghost predicate Reading(buf: seq<char>, row: nat, acc: string, n: nat)
      reads argBuf
    {
      |buf| == argBuf.Length == BUF_SIZE && row < ARGV_MAX && n == |acc| && argBuf[..] == Written(buf, row, acc)
    }

    /** `arg_append`: characters beyond the row are dropped but counted. */
    method Append(row: nat, n: nat, c: char, ghost buf: seq<char>, ghost acc: string)
      requires Reading(buf, row, acc, n)
      modifies argBuf
      ensures Reading(buf, row, acc + [c], n + 1)
    {
      if n + 1 < ARG_MAX {
        argBuf[row * ARG_MAX + n] := c;
      }
      assert argBuf[..] == Written(buf, row, acc + [c]);
    }

    /** The copying loop of `expand_var`. */
    method AppendAll(row: nat, n: nat, v: string, ghost buf: seq<char>, ghost acc: string) returns (n': nat)
      requires Reading(buf, row, acc, n)
      modifies argBuf
      ensures Reading(buf, row, acc + v, n')
    {
      hide Reading;
      n' := n;
      var i := 0;
      assert acc + v[..0] == acc;
      while i < |v|
        invariant i <= |v| && Reading(buf, row, acc + v[..i], n')
      {
        Append(row, n', v[i], buf, acc + v[..i]);
        assert acc + v[..i] + [v[i]] == acc + v[..i + 1];
        n' := n' + 1;
        i := i + 1;
      }
      assert v[..i] == v;
    }

    /** The inner loop: reads one token into its row and stores a terminator after
        it, which for a long token may be outside the buffer. */
    method ReadToken(line: string, start: nat, row: nat) returns (p: nat, inside: bool)
      requires Valid() && start <= |line| && row < ARGV_MAX
      modifies argBuf
      ensures p == Token(env, line, start, false, "").1
      ensures argBuf[..] == Put(old(argBuf[..]), row, Token(env, line, start, false, "").0)
      ensures inside <==> EndOf(row, Token(env, line, start, false, "").0) < BUF_SIZE
    {
      hide Reading, Bite, InToken, Put;
      ghost var buf, acc := argBuf[..], "";
      var n, quoted := 0, false;
      p := start;
      NothingRead(row);
      while InToken(line, p, quoted)
        invariant p <= |line| && Reading(buf, row, acc, n)
        invariant Token(env, line, start, false, "") == Token(env, line, p, quoted, acc)
        decreases |line| - p
      {
        ghost var s;
        n, p, quoted, s := ReadBite(line, p, quoted, row, n, buf, acc);
        acc := acc + s;
      }
      inside := Terminate(row, n, buf, acc);
    }

    lemma NothingRead(row: nat)
      requires argBuf.Length == BUF_SIZE && row < ARGV_MAX
      ensures Reading(argBuf[..], row, "", 0)
    {
      assert argBuf[..] == Written(argBuf[..], row, "");
    }

    /** One character of the inner loop. */
    method ReadBite(line: string, p: nat, quoted: bool, row: nat, n: nat, ghost buf: seq<char>, ghost acc: string)
      returns (n': nat, p': nat, quoted': bool, ghost s: string)
      requires Valid() && p < |line| && Reading(buf, row, acc, n)
      modifies argBuf
      ensures (s, p', quoted') == Bite(env, line, p, quoted) && Reading(buf, row, acc + s, n')
    {
      hide Reading, ValueAt, NameLength;
      var c := line[p];
      n', p', quoted' := n, p + 1, quoted;
      s := "";
      if c == '"' {
        quoted' := !quoted;
        assert acc + s == acc;
      } else if c == '\\' && p' < |line| {
        Append(row, n, line[p'], buf, acc);
        s := [line[p']];
        n', p' := n + 1, p' + 1;
      } else if c == '$' {
        n', p', s := ExpandVar(line, p', row, n, buf, acc);
      } else {
        Append(row, n, c, buf, acc);
        s := [c];
        n' := n + 1;
      }
    }

    /** `expand_var` and what the loop does with its result. */
    method ExpandVar(line: string, p: nat, row: nat, n: nat, ghost buf: seq<char>, ghost acc: string)
      returns (n': nat, p': nat, ghost s: string)
      requires Valid() && p <= |line| && Reading(buf, row, acc, n)
      modifies argBuf
      ensures Reading(buf, row, acc + s, n')
      ensures var used := NameLength(line, p);
              p' == p + used && s == if used > 0 then ValueAt(env, line, p) else "$"
    {
      hide Reading, NameLength;
      var used := ScanName(line, p);
      p' := p + used;
      if used > 0 {
        var key := line[p..p + if used >= KEY_LEN then KEY_LEN - 1 else used];
        var found, v := Lookup(key);
        s, n' := v, n;
        assert acc + "" == acc;
        if found {
          n' := AppendAll(row, n, v, buf, acc);
        }
      } else {
        s := "$";
        Append(row, n, '$', buf, acc);
        n' := n + 1;
      }
    }

    /** The store of the terminator. */
    method Terminate(row: nat, n: nat, ghost buf: seq<char>, ghost acc: string) returns (inside: bool)
      requires Reading(buf, row, acc, n)
      modifies argBuf
      ensures argBuf[..] == Put(buf, row, acc) && (inside <==> EndOf(row, acc) < BUF_SIZE)
    {
      inside := row * ARG_MAX + n < BUF_SIZE;
      if inside {
        argBuf[row * ARG_MAX + n] := NUL;
      }
    }

    /** `tsh_tokenize`: fills one row per argument and returns their number, or stops
        where a terminator would be stored outside the buffer. */
    method Tokenize(line: string, max: nat) returns (argc: nat, inside: bool)
      requires Valid() && max <= ARGV_MAX
      modifies argBuf
      ensures inside <==> Inside(Tokens(env, line, 0, max))
      ensures var args := Tokens(env, line, 0, max);
              inside ==> argc == |args| && argBuf[..] == PutAll(old(argBuf[..]), args)
    {
      hide Token, Tokens, Put, Inside, Blank, SkipBlanks;
      ghost var all, buf := Tokens(env, line, 0, max), argBuf[..];
      ghost var done: seq<string> := [];
      NoneInside();
      argc := 0;
      var p: nat := 0;
      while p < |line| && argc < max
        invariant p <= |line| && argc == |done| <= max && Inside(done) && argBuf[..] == PutAll(buf, done)
        invariant all == done + Tokens(env, line, p, max - argc)
        decreases max - argc
      {
        TokensStep(env, line, p, max - argc);
        p := SkipTo(line, p);
        if p == |line| || line[p] == '#' {
          assert done + [] == done;
          return argc, true;
        }
        ghost var (t, e) := Token(env, line, p, false, "");
        NextArgument(all, done, t, Tokens(env, line, e, max - argc - 1));
        p, inside := ReadToken(line, p, argc);
        if !inside {
          return;
        }
        assert (done + [t])[..argc] == done;
        done := done + [t];
        argc := argc + 1;
      }
      NoTokens(env, line, p, max - argc);
      assert done + [] == done;
      return argc, true;
    }

    /** The loop over the characters of a variable name. */
    method ScanName(line: string, p: nat) returns (n: nat)
      requires p <= |line|
      ensures n == NameLength(line, p)
    {
      if p == |line| || !Letter(line[p]) {
        return 0;
      }
      var q := p + 1;
      while q < |line| && NameChar(line[q])
        invariant p < q <= |line| && NameEnd(line, p + 1) == NameEnd(line, q)
      {
        q := q + 1;
      }
      return q - p;
    }

    /** `tsh_env_get`; `found` tells a missing key from an empty value. */
    method Lookup(key: string) returns (found: bool, v: string)
      ensures found <==> exists k :: 0 <= k < |env| && env[k].key == key
      ensures v == EnvGet(env, key) && (!found ==> v == "")
    {
      var i := 0;
      while i < |env|
        invariant i <= |env| && EnvGet(env, key) == EnvGet(env[i..], key)
        invariant forall k :: 0 <= k < i ==> env[k].key != key
      {
        if env[i].key == key {
          return true, env[i].val;
        }
        i := i + 1;
      }
      return false, "";
    }

    method SkipTo(line: string, p: nat) returns (q: nat)
      requires p <= |line|
      ensures q == SkipBlanks(line, p)
    {
      q := p;
      while q < |line| && Blank(line[q])
        invariant p <= q <= |line| && SkipBlanks(line, p) == SkipBlanks(line, q)
      {
        q := q + 1;
      }
    }
  }

  lemma NoneInside()
    ensures Inside([])
  {
  }

  lemma NextArgument(all: seq<string>, done: seq<string>, t: string, rest: seq<string>)
    requires all == done + ([t] + rest) && Inside(done)
    ensures all == done + [t] + rest
    ensures Inside(done + [t]) <==> EndOf(|done|, t) < BUF_SIZE
    ensures EndOf(|done|, t) >= BUF_SIZE ==> !Inside(all)
  {
    assert all[|done|] == t && (done + [t])[|done|] == t;
    assert forall i :: 0 <= i < |done| ==> (done + [t])[i] == done[i];
  }

  lemma TokensStep(env: Env, line: string, p: nat, max: nat)
    requires p < |line| && max > 0
    ensures var q := SkipBlanks(line, p);
            if q == |line| || line[q] == '#' then Tokens(env, line, p, max) == []
            else
              var (t, e) := Token(env, line, q, false, "");
              Tokens(env, line, p, max) == [t] + Tokens(env, line, e, max - 1)
  {
  }

  lemma NoTokens(env: Env, line: string, p: nat, max: nat)
    requires p <= |line| && (p == |line| || max == 0)
    ensures Tokens(env, line, p, max) == []
  {
  }

  // ------------------------------------------------------ long arguments

  /** Each argument stands in its row, cut to what a row can hold. */
  ghost predicate Rows(buf: seq<char>, args: seq<string>) {
    forall i :: 0 <= i < |args| ==> Holds(buf, i * ARG_MAX, Kept(args[i]))
  }

  /** A terminator stays in its row if and only if the argument has less than 128
      characters. */
  lemma EndInRowIff(row: nat, t: string)
    ensures EndOf(row, t) < (row + 1) * ARG_MAX <==> |t| < ARG_MAX
    ensures row < ARGV_MAX && |t| < ARG_MAX ==> EndOf(row, t) < BUF_SIZE
  {
  }

  lemma PutAt(buf: seq<char>, row: nat, t: string, k: nat)
    requires |buf| == BUF_SIZE && row < ARGV_MAX && k < BUF_SIZE
    ensures k < row * ARG_MAX ==> Put(buf, row, t)[k] == buf[k]
    ensures k >= (row + 1) * ARG_MAX && |t| < ARG_MAX ==> Put(buf, row, t)[k] == buf[k]
    ensures k == row * ARG_MAX + ARG_MAX - 1 && |t| >= ARG_MAX ==> Put(buf, row, t)[k] == buf[k]
  {
  }

  lemma PutHolds(buf: seq<char>, row: nat, t: string)
    requires |buf| == BUF_SIZE && row < ARGV_MAX && |t| < ARG_MAX && Clean(t)
    ensures Holds(Put(buf, row, t), row * ARG_MAX, t)
  {
    var r, base := Put(buf, row, t), row * ARG_MAX;
    assert r[base..base + |t|] == t;
  }

  lemma HoldsKept(buf: seq<char>, buf': seq<char>, cut: nat, base: nat, s: string)
    requires |buf| == |buf'| && cut <= |buf| && Holds(buf, base, s) && base + |s| < cut
    requires forall k :: 0 <= k < cut ==> buf'[k] == buf[k]
    ensures Holds(buf', base, s)
  {
    assert buf'[base..base + |s|] == buf[base..base + |s|];
  }

  lemma PutLast(buf: seq<char>, args: seq<string>)
    requires |buf| == BUF_SIZE && 0 < |args| <= ARGV_MAX
    ensures var n := |args| - 1; PutAll(buf, args) == Put(PutAll(buf, args[..n]), n, args[n])
  {
  }

  /** Arguments that fit stand in their rows, whatever the buffer held before. */
  lemma {:induction false} FittingRows(buf: seq<char>, args: seq<string>)
    requires |buf| == BUF_SIZE && |args| <= ARGV_MAX && Fits(args) && forall t :: t in args ==> Clean(t)
    ensures Rows(PutAll(buf, args), args)
  {
    hide Put, PutAll, Holds, Clean;
    if args != [] {
      var n := |args| - 1;
      var init, t := args[..n], args[n];
      FittingRows(buf, init);
      PutLast(buf, args);
      var was, now := PutAll(buf, init), PutAll(buf, args);
      PutHolds(was, n, t);
      forall k | 0 <= k < n * ARG_MAX ensures now[k] == was[k] {
        PutAt(was, n, t, k);
      }
      forall i | 0 <= i < n ensures Holds(now, i * ARG_MAX, Kept(args[i])) {
        assert init[i] == args[i];
        HoldsKept(was, now, n * ARG_MAX, i * ARG_MAX, Kept(args[i]));
      }
    }
  }

  /** Argument `i`, if there is one, is the first long one. */
  ghost predicate FirstLongAt(args: seq<string>, i: nat) {
    && (forall j :: 0 <= j < |args| && j < i ==> |args[j]| < ARG_MAX)
    && (i < |args| ==> |args[i]| >= ARG_MAX)
  }

  /** The last byte of the row of the first long argument is never written. */
  lemma {:induction false} LastByteKept(buf: seq<char>, args: seq<string>, i: nat)
    requires |buf| == BUF_SIZE && |args| <= ARGV_MAX && i < ARGV_MAX && FirstLongAt(args, i)
    ensures PutAll(buf, args)[i * ARG_MAX + ARG_MAX - 1] == buf[i * ARG_MAX + ARG_MAX - 1]
  {
    hide Put, PutAll;
    if args == [] {
      NonePut(buf);
    } else {
      var n := |args| - 1;
      LastByteKept(buf, args[..n], i);
      PutLast(buf, args);
      PutAt(PutAll(buf, args[..n]), n, args[n], i * ARG_MAX + ARG_MAX - 1);
    }
  }

  lemma NonePut(buf: seq<char>)
    requires |buf| == BUF_SIZE
    ensures PutAll(buf, []) == buf
  {
  }

  lemma {:induction false} FirstLong(args: seq<string>) returns (i: nat)
    requires !Fits(args)
    ensures i < |args| && FirstLongAt(args, i)
  {
    var n := |args| - 1;
    if Fits(args[..n]) {
      i := n;
      assert forall j :: 0 <= j < n ==> args[j] in args[..n];
      assert args == args[..n] + [args[n]];
    } else {
      i := FirstLong(args[..n]);
    }
  }

  /** A row without a terminator holds no cut argument. */
  lemma LongNotHeld(buf: seq<char>, args: seq<string>, i: nat)
    requires |buf| == BUF_SIZE && i < |args| <= ARGV_MAX && |args[i]| >= ARG_MAX &&
             buf[i * ARG_MAX + ARG_MAX - 1] != NUL
    ensures !Rows(buf, args)
  {
    hide At;
    assert |Kept(args[i])| == ARG_MAX - 1;
    assert !Holds(buf, i * ARG_MAX, Kept(args[i]));
  }

  ghost predicate AlwaysRows(args: seq<string>)
    requires |args| <= ARGV_MAX
  {
    forall buf: seq<char> :: |buf| == BUF_SIZE ==> Rows(PutAll(buf, args), args)
  }

  /** Every argument is found in its row, cut to what a row can hold, whatever the
      buffer held before, if and only if every argument has less than 128 characters:
      the row of a longer one is left without a terminator. */
  lemma RowsIff(args: seq<string>)
    requires |args| <= ARGV_MAX && forall t :: t in args ==> Clean(t)
    ensures AlwaysRows(args) <==> Fits(args)
  {
    hide Rows, PutAll, Clean, Fits;
    if Fits(args) {
      forall buf: seq<char> | |buf| == BUF_SIZE ensures Rows(PutAll(buf, args), args) {
        FittingRows(buf, args);
      }
    } else {
      var i := FirstLong(args);
      var buf := seq(BUF_SIZE, _ => 'x');
      LastByteKept(buf, args, i);
      LongNotHeld(PutAll(buf, args), args, i);
    }
  }

  /** Arguments that fit are inside. */
  lemma FitsInside(args: seq<string>)
    requires |args| <= ARGV_MAX && Fits(args)
    ensures Inside(args)
  {
    forall i | 0 <= i < |args| ensures EndOf(i, args[i]) < BUF_SIZE {
      EndInRowIff(i, args[i]);
    }
  }

  lemma VarBites(env: Env, line: string, p: nat, acc: string)
    requires p + 2 <= |line| && line[p] == '$' && line[p + 1] == 'A' && (p + 2 < |line| ==> line[p + 2] == '$')
    ensures Token(env, line, p, false, acc) == Token(env, line, p + 2, false, acc + EnvGet(env, "A"))
  {
    assert NameEnd(line, p + 2) == p + 2 && NameLength(line, p + 1) == 1;
    assert line[p + 1..p + 2] == "A";
  }

  /** A variable twice in a row. */
  lemma TwiceReads(env: Env, line: string, p: nat)
    requires p + 4 == |line| && line[p..] == "$A$A"
    ensures Token(env, line, p, false, "") == (EnvGet(env, "A") + EnvGet(env, "A"), |line|)
  {
    assert line[p] == line[p..][0] && line[p + 1] == line[p..][1] && line[p + 2] == line[p..][2] &&
           line[p + 3] == line[p..][3];
    VarBites(env, line, p, "");
    assert "" + EnvGet(env, "A") == EnvGet(env, "A");
    VarBites(env, line, p + 2, EnvGet(env, "A"));
  }

  /** `n` one-letter arguments, then the variable twice. */
  function Padded(n: nat): (line: string)
    ensures |line| == 2 * n + 4 && line[2 * n..] == "$A$A"
    ensures forall k :: 0 <= k < n ==> line[2 * k] == 'x' && line[2 * k + 1] == ' '
  {
    seq(2 * n, i => if i % 2 == 0 then 'x' else ' ') + "$A$A"
  }

  function Letters(n: nat): (r: seq<string>)
    ensures |r| == n && forall t :: t in r ==> t == "x"
  {
    seq(n, _ => "x")
  }

  lemma {:induction false} PaddedTokens(env: Env, n: nat, i: nat, max: nat)
    requires i <= n && max > n - i
    ensures Tokens(env, Padded(n), 2 * i, max) == Letters(n - i) + [EnvGet(env, "A") + EnvGet(env, "A")]
    decreases n - i
  {
    hide Padded, Token, Tokens;
    var line := Padded(n);
    if i == n {
      TwiceReads(env, line, 2 * n);
      assert line[2 * n] == line[2 * n..][0];
      ReadsOne(env, line, 2 * n, max);
      NoTokens(env, line, |line|, max - 1);
    } else {
      LetterReads(env, line, 2 * i);
      ReadsOne(env, line, 2 * i, max);
      SkipsOne(env, line, 2 * i + 1, max - 1);
      PaddedTokens(env, n, i + 1, max - 1);
      assert Letters(n - i) == ["x"] + Letters(n - i - 1);
    }
  }

  lemma LetterReads(env: Env, line: string, p: nat)
    requires p + 1 < |line| && line[p] == 'x' && line[p + 1] == ' '
    ensures Token(env, line, p, false, "") == ("x", p + 1)
  {
    assert Bite(env, line, p, false) == ("x", p + 1, false);
    assert "" + "x" == "x";
  }

  /** For instance, with a variable of 64 characters: `$A$A` puts its terminator into
      the next row, and `x x x x x x x $A$A` outside the buffer. */
  lemma ExpandedOverruns(env: Env)
    requires |EnvGet(env, "A")| == 64
    ensures Tokens(env, Padded(0), 0, ARGV_MAX) == [EnvGet(env, "A") + EnvGet(env, "A")]
    ensures EndOf(0, Tokens(env, Padded(0), 0, ARGV_MAX)[0]) == ARG_MAX
    ensures !Inside(Tokens(env, Padded(7), 0, ARGV_MAX)) && |Padded(7)| == 18
  {
    PaddedTokens(env, 0, 0, ARGV_MAX);
    PaddedTokens(env, 7, 0, ARGV_MAX);
    var args := Tokens(env, Padded(7), 0, ARGV_MAX);
    assert |args[7]| == 128 && EndOf(7, args[7]) == BUF_SIZE;
  }

  // ---------------------------------------------------------- quoted lines

  /** A line built by quoting is one the tokenizer takes, and comes back argument
      by argument, whatever the environment. */
  lemma QuotedLine(env: Env, args: seq<string>)
    requires |args| <= ARGV_MAX && Fits(args) && forall a :: a in args ==> Clean(a)
    ensures Clean(Joined(args)) && Inside(args) && Tokens(env, Joined(args), 0, ARGV_MAX) == args
    ensures AlwaysRows(args)
  {
    hide Tokens, Joined, PutAll, Rows;
    TokenizeInvertsQuoting(env, args, ARGV_MAX);
    CleanJoined(args);
    FitsInside(args);
    RowsIff(args);
  }

  lemma {:induction false} CleanJoined(args: seq<string>)
    requires forall a :: a in args ==> Clean(a)
    ensures Clean(Joined(args))
  {
    if args != [] {
      assert args[0] in args;
      CleanEscaped(args[0]);
      CleanJoined(args[1..]);
    }
  }

  lemma {:induction false} CleanEscaped(arg: string)
    requires Clean(arg)
    ensures Clean(Escaped(arg))
  {
    if arg != "" {
      CleanEscaped(arg[1..]);
    }
  }
}
