/**
 * The command line a Windows child is given (core/src/SystemUtils.cpp, core/src/WindowsProcess.cpp) and the
 * argv it makes of it, by the rules documented for CommandLineToArgvW.
 */
module CommandLine {
  const BACKSLASH := '\\'
  const QUOTE := '"'

  function Backslashes(n: nat): (s: string)
    ensures |s| == n && forall i :: 0 <= i < n ==> s[i] == BACKSLASH
  {
    seq(n, _ => BACKSLASH)
  }

  /** How many backslashes a string begins with. */
  function Leading(s: string): (n: nat)
    ensures n <= |s| && forall i :: 0 <= i < n ==> s[i] == BACKSLASH
    ensures n < |s| ==> s[n] != BACKSLASH
  {
    if s != [] && s[0] == BACKSLASH then 1 + Leading(s[1..]) else 0
  }

  lemma LeadingIs(s: string, n: nat)
    requires n <= |s| && (forall i :: 0 <= i < n ==> s[i] == BACKSLASH) && (n < |s| ==> s[n] != BACKSLASH)
    ensures Leading(s) == n
  {
    hide Leading;
    var m := Leading(s);
    assert m < |s| ==> s[m] != BACKSLASH;
  }

  lemma SuffixRun(s: string, i: nat, n: nat)
    requires i + n <= |s| && forall j :: i <= j < i + n ==> s[j] == BACKSLASH
    ensures i + n == |s| ==> s[i..] == Backslashes(n)
    ensures i + n < |s| ==> s[i..] == Backslashes(n) + [s[i + n]] + s[i + n + 1..]
  {
    if i + n == |s| {
      assert s[i..] == Backslashes(n);
    } else {
      var t := Backslashes(n) + [s[i + n]] + s[i + n + 1..];
      assert |s[i..]| == |t|;
      forall k | 0 <= k < |t| ensures s[i..][k] == t[k] {
        assert s[i..][k] == s[i + k];
      }
    }
  }

  /** A string is a run of backslashes, and either nothing or another character and the rest. */
  lemma Decompose(s: string)
    ensures var n := Leading(s);
      if n == |s| then s == Backslashes(n) else s[n] != BACKSLASH && s == Backslashes(n) + [s[n]] + s[n + 1..]
  {
    hide Leading;
    SuffixRun(s, 0, Leading(s));
    assert s[0..] == s;
  }

  lemma RunThen(n: nat, c: char, t: string)
    requires c != BACKSLASH
    ensures var s := Backslashes(n) + [c] + t; Leading(s) == n && s[n] == c && s[n + 1..] == t && s[n..] == [c] + t
  {
    hide Leading;
    LeadingIs(Backslashes(n) + [c] + t, n);
  }

  lemma RunOnly(n: nat)
    ensures Leading(Backslashes(n)) == n
  {
    hide Leading;
    LeadingIs(Backslashes(n), n);
  }

  // ---------- quoting ----------

  predicate NeedsQuotes(arg: string) {
    arg == "" || ' ' in arg || '\t' in arg || '\n' in arg || '\U{B}' in arg || QUOTE in arg
  }

  /** What goes between the quotes. */
  function Body(arg: string): string {
    var n := Leading(arg);
    if n == |arg| then Backslashes(2 * n)
    else if arg[n] == QUOTE then Backslashes(2 * n + 1) + [QUOTE] + Body(arg[n + 1..])
    else Backslashes(n) + [arg[n]] + Body(arg[n + 1..])
  }

  function Quote(arg: string): string {
    if NeedsQuotes(arg) then [QUOTE] + Body(arg) + [QUOTE] else arg
  }

  method QuoteCommandLineArg(arg: string) returns (result: string)
    ensures result == Quote(arg)
  {
    hide NeedsQuotes, Body, Backslashes;
    if !NeedsQuotes(arg) {
      return arg;
    }
    result := [QUOTE];
    var i := 0;
    ghost var goal := [QUOTE] + Body(arg);
    assert arg[0..] == arg;
    while true
      invariant i <= |arg| && result + Body(arg[i..]) == goal
      decreases |arg| - i
    {
      var backslashes := 0;
      while i + backslashes < |arg| && arg[i + backslashes] == BACKSLASH
        invariant i + backslashes <= |arg|
        invariant forall j :: i <= j < i + backslashes ==> arg[j] == BACKSLASH
      {
        backslashes := backslashes + 1;
      }
      BodyOfSuffix(arg, i, backslashes, result);
      var next := i + backslashes;
      if next == |arg| {
        result := result + Backslashes(backslashes * 2);
        break;
      }
      if arg[next] == QUOTE {
        result := result + Backslashes(backslashes * 2 + 1) + [QUOTE];
      } else {
        result := result + Backslashes(backslashes) + [arg[next]];
      }
      i := next + 1;
    }
    result := result + [QUOTE];
  }

  /** What the next run of backslashes, and the character behind it, contribute. */
  lemma BodyOfSuffix(arg: string, i: nat, n: nat, before: string)
    requires i + n <= |arg| && (forall j :: i <= j < i + n ==> arg[j] == BACKSLASH)
    requires i + n < |arg| ==> arg[i + n] != BACKSLASH
    ensures i + n == |arg| ==> before + Body(arg[i..]) == before + Backslashes(2 * n)
    ensures i + n < |arg| ==>
      before + Body(arg[i..])
      == before + Backslashes(if arg[i + n] == QUOTE then 2 * n + 1 else n) + [arg[i + n]] + Body(arg[i + n + 1..])
  {
    hide Body, Backslashes;
    SuffixRun(arg, i, n);
    if i + n == |arg| {
      BodyEnd(n);
    } else {
      var c, rest := arg[i + n], arg[i + n + 1..];
      BodyStep(n, c, rest);
      Reassociate(before, Backslashes(if c == QUOTE then 2 * n + 1 else n), [c], Body(rest));
    }
  }

  lemma BodyEnd(n: nat)
    ensures Body(Backslashes(n)) == Backslashes(2 * n)
  {
    hide Leading;
    RunOnly(n);
  }

  lemma BodyStep(n: nat, c: char, t: string)
    requires c != BACKSLASH
    ensures Body(Backslashes(n) + [c] + t) == Backslashes(if c == QUOTE then 2 * n + 1 else n) + [c] + Body(t)
  {
    hide Leading;
    RunThen(n, c, t);
  }

  lemma Reassociate(a: string, b: string, c: string, d: string)
    ensures a + b + c + d == a + (b + c + d)
  {
  }

  /** The quoted arguments, with a space between each two. */
  function Join(args: seq<string>): string {
    if args == [] then ""
    else if |args| == 1 then Quote(args[0])
    else Join(args[..|args| - 1]) + " " + Quote(args[|args| - 1])
  }

  method BuildCommandLine(args: seq<string>) returns (line: string)
    ensures line == Join(args)
  {
    hide Quote;
    line := "";
    for i := 0 to |args|
      invariant line == Join(args[..i]) && (i > 0 ==> line != "")
    {
      assert args[..i + 1][..i] == args[..i];
      QuoteIsSomething(args[i]);
      if line != "" {
        line := line + " ";
      }
      var quoted := QuoteCommandLineArg(args[i]);
      line := line + quoted;
    }
    assert args[..|args|] == args;
  }

  lemma QuoteIsSomething(arg: string)
    ensures Quote(arg) != ""
  {
  }

  // ---------- quoting, character by character ----------

  /** A backslash in a run that a quote or the end follows. */
  ghost predicate BeforeQuote(arg: string, i: nat) {
    exists j: nat :: RunsTo(arg, i, j) && (j == |arg| || arg[j] == '"')
  }

  predicate RunsTo(arg: string, i: nat, j: nat) {
    i < j <= |arg| && forall k :: i <= k < j ==> arg[k] == '\\'
  }

  /** What each character of an argument becomes between the quotes. */
  ghost function Piece(arg: string, i: nat): string
    requires i < |arg|
  {
    if arg[i] == '"' then "\\\""
    else if arg[i] == '\\' && BeforeQuote(arg, i) then "\\\\"
    else [arg[i]]
  }

  ghost function Pieces(arg: string, i: nat): string
    requires i <= |arg|
    decreases |arg| - i
  {
    if i == |arg| then "" else Piece(arg, i) + Pieces(arg, i + 1)
  }

  lemma RunCons(n: nat)
    ensures Backslashes(n + 1) == "\\" + Backslashes(n) && Backslashes(n + 2) == "\\\\" + Backslashes(n)
  {
  }

  lemma Glue(a: string, run: string, c: string, rest: string)
    ensures a + (run + c + rest) == a + run + c + rest
  {
  }

  lemma BodyOfPlain(c: char, t: string)
    requires c != '\\'
    ensures Body([c] + t) == (if c == '"' then "\\\"" else [c]) + Body(t)
  {
    hide Body;
    BodyStep(0, c, t);
    RunCons(0);
    assert Backslashes(0) == "" && Backslashes(0) + [c] + t == [c] + t;
    assert Backslashes(0) + [c] + Body(t) == [c] + Body(t);
    assert "\\\"" == "\\" + ['"'];
  }

  lemma BodyOfRun(n: nat, c: char, t: string)
    requires c != '\\'
    ensures Body(Backslashes(n + 1) + [c] + t)
         == (if c == '"' then "\\\\" else "\\") + Body(Backslashes(n) + [c] + t)
  {
    hide Body, Backslashes;
    BodyStep(n + 1, c, t);
    BodyStep(n, c, t);
    RunCons(n);
    RunCons(2 * n + 1);
    Glue("\\\\", Backslashes(2 * n + 1), [c], Body(t));
    Glue("\\", Backslashes(n), [c], Body(t));
  }

  lemma BodyOfLastRun(n: nat)
    ensures Body(Backslashes(n + 1)) == "\\\\" + Body(Backslashes(n))
  {
    hide Body, Backslashes;
    BodyEnd(n + 1);
    BodyEnd(n);
    RunCons(2 * n);
  }

  lemma FirstOfPlain(s: string)
    requires s != "" && s[0] != '\\'
    ensures Body(s) == (if s[0] == '"' then "\\\"" else [s[0]]) + Body(s[1..])
  {
    hide Body;
    BodyOfPlain(s[0], s[1..]);
    assert s == [s[0]] + s[1..];
  }

  lemma FirstOfLastRun(s: string)
    requires s != "" && Leading(s) == |s|
    ensures Body(s) == "\\\\" + Body(s[1..])
  {
    hide Leading, Body, Backslashes;
    var n := |s|;
    Decompose(s);
    DropFirst(n - 1, "");
    BodyOfLastRun(n - 1);
    assert Backslashes(n) + "" == Backslashes(n) && Backslashes(n - 1) + "" == Backslashes(n - 1);
  }

  lemma FirstOfRun(s: string)
    requires 0 < Leading(s) < |s|
    ensures var n := Leading(s); Body(s) == (if s[n] == '"' then "\\\\" else "\\") + Body(s[1..])
  {
    hide Leading, Body, Backslashes;
    var n := Leading(s);
    Decompose(s);
    BehindFirst(s, n, s[n], s[n + 1..]);
    BodyOfRun(n - 1, s[n], s[n + 1..]);
  }

  lemma BehindFirst(s: string, n: nat, c: char, rest: string)
    requires n > 0 && s == Backslashes(n) + [c] + rest
    ensures s[1..] == Backslashes(n - 1) + [c] + rest
  {
    hide Backslashes;
    DropFirst(n - 1, [c] + rest);
    assert Backslashes(n) + ([c] + rest) == s;
    assert Backslashes(n - 1) + ([c] + rest) == Backslashes(n - 1) + [c] + rest;
  }

  lemma DropFirst(n: nat, t: string)
    ensures (Backslashes(n + 1) + t)[1..] == Backslashes(n) + t
  {
    hide Backslashes;
    RunCons(n);
    assert "\\" + Backslashes(n) + t == ['\\'] + (Backslashes(n) + t);
  }

  lemma LeadingSome(s: string)
    requires s != "" && s[0] == '\\'
    ensures 0 < Leading(s) <= |s|
  {
  }

  lemma RunIsLeading(arg: string, i: nat)
    requires i < |arg| && arg[i] == '\\'
    ensures var n := Leading(arg[i..]); BeforeQuote(arg, i) <==> i + n == |arg| || arg[i + n] == '"'
  {
    hide Leading;
    var s := arg[i..];
    var n := Leading(s);
    assert forall k :: i <= k < i + n ==> arg[k] == s[k - i];
    assert i + n < |arg| ==> arg[i + n] == s[n] != '\\';
    assert n > 0;
    assert RunsTo(arg, i, i + n);
  }

  lemma {:induction false} BodyIsPieces(arg: string, i: nat)
    requires i <= |arg|
    ensures Body(arg[i..]) == Pieces(arg, i)
    decreases |arg| - i
  {
    hide Body, Leading, BeforeQuote;
    if i < |arg| {
      var s := arg[i..];
      assert s[1..] == arg[i + 1..];
      BodyIsPieces(arg, i + 1);
      if arg[i] != '\\' {
        FirstOfPlain(s);
      } else {
        RunIsLeading(arg, i);
        LeadingSome(s);
        if Leading(s) == |s| { FirstOfLastRun(s); } else { FirstOfRun(s); }
      }
    } else {
      BodyEnd(0);
      assert arg[i..] == "" == Backslashes(0);
    }
  }

  /**
   * Quoting, in full: an argument with nothing in it that a reader would stop at stays as it is; any other is put in
   * quotes, its own quotes escaped and the backslashes before a quote, the closing one too, doubled.
   */
  lemma QuoteMeans(arg: string)
    ensures Quote(arg)
         == if arg != "" && (forall i :: 0 <= i < |arg| ==> arg[i] !in [' ', '\t', '\n', '\U{B}', '"']) then arg
            else "\"" + Pieces(arg, 0) + "\""
  {
    hide Body;
    BodyIsPieces(arg, 0);
    assert arg[0..] == arg;
    assert NeedsQuotes(arg) <==>
             arg == "" || exists i :: 0 <= i < |arg| && arg[i] in [' ', '\t', '\n', '\U{B}', '"'] by {
      if NeedsQuotes(arg) && arg != "" {
        var c :| c in [' ', '\t', '\n', '\U{B}', '"'] && c in arg;
        var i :| 0 <= i < |arg| && arg[i] == c;
      }
    }
  }

  /** One space between two arguments, none before the first. */
  lemma JoinMeans(args: seq<string>, a: string)
    ensures Join([]) == "" && Join(args + [a]) == if args == [] then Quote(a) else Join(args) + " " + Quote(a)
  {
    hide Quote;
    assert (args + [a])[..|args|] == args;
  }

  // ---------- the child's argv ----------

  predicate Blank(c: char) {
    c == ' ' || c == '\t'
  }

  /** One argument, read from where it begins, and what is left of the line behind it. */
  function ReadArg(s: string, quoted: bool, sofar: string): (r: (string, string))
    ensures |r.1| <= |s|
    ensures s != "" && !Blank(s[0]) ==> |r.1| < |s|
  {
    if s == "" then (sofar, "")
    else
      var n := Leading(s);
      if n < |s| && s[n] == QUOTE then
        if n % 2 == 1 then ReadArg(s[n + 1..], quoted, sofar + Backslashes(n / 2) + [QUOTE])
        else ReadArg(s[n + 1..], !quoted, sofar + Backslashes(n / 2))
      else if n > 0 then ReadArg(s[n..], quoted, sofar + Backslashes(n))
      else if Blank(s[0]) && !quoted then (sofar, s)
      else ReadArg(s[1..], quoted, sofar + [s[0]])
  }

  function ReadArgs(line: string): seq<string>
    decreases |line|
  {
    if line == "" then []
    else if Blank(line[0]) then ReadArgs(line[1..])
    else
      var (arg, rest) := ReadArg(line, false, "");
      [arg] + ReadArgs(rest)
  }

  /** The program name follows simpler rules: up to the next quote, or the next blank. */
  function UpTo(s: string, blanks: bool): (n: nat)
    ensures n <= |s|
  {
    if s == "" || (if blanks then Blank(s[0]) else s[0] == QUOTE) then 0 else 1 + UpTo(s[1..], blanks)
  }

  function ReadLine(line: string): seq<string> {
    if line != "" && line[0] == QUOTE then
      var n := UpTo(line[1..], false);
      [line[1..][..n]] + ReadArgs(if n + 1 < |line| then line[n + 2..] else "")
    else
      var n := UpTo(line, true);
      [line[..n]] + ReadArgs(line[n..])
  }

  // ---------- round trip ----------

  /** What may follow an argument in the line. */
  predicate Ends(tail: string) {
    tail == "" || Blank(tail[0])
  }

  lemma ReadAtQuote(n: nat, t: string, quoted: bool, sofar: string)
    ensures ReadArg(Backslashes(n) + [QUOTE] + t, quoted, sofar)
         == if n % 2 == 1 then ReadArg(t, quoted, sofar + Backslashes(n / 2) + [QUOTE])
            else ReadArg(t, !quoted, sofar + Backslashes(n / 2))
  {
    hide Leading;
    RunThen(n, QUOTE, t);
  }

  lemma ReadAtChar(n: nat, c: char, t: string, quoted: bool, sofar: string)
    requires c != BACKSLASH && c != QUOTE && (quoted || !Blank(c))
    ensures ReadArg(Backslashes(n) + [c] + t, quoted, sofar) == ReadArg(t, quoted, sofar + Backslashes(n) + [c])
  {
    hide Leading;
    RunThen(n, c, t);
    RunThen(0, c, t);
    assert Backslashes(0) + [c] + t == [c] + t;
    if n == 0 {
      assert sofar + Backslashes(0) == sofar;
    }
  }

  lemma ReadAtEnd(n: nat, tail: string, sofar: string)
    requires Ends(tail)
    ensures ReadArg(Backslashes(n) + tail, false, sofar) == (sofar + Backslashes(n), tail)
  {
    hide Leading;
    var s := Backslashes(n) + tail;
    assert s[n..] == tail;
    LeadingIs(s, n);
    LeadingIs(tail, 0);
    if n == 0 {
      assert s == tail && sofar + Backslashes(0) == sofar;
    }
  }

  /** An argument without special characters reads as itself. */
  lemma {:induction false} ReadPlain(arg: string, tail: string, sofar: string)
    requires Ends(tail) && forall i :: 0 <= i < |arg| ==> arg[i] != QUOTE && !Blank(arg[i])
    ensures ReadArg(arg + tail, false, sofar) == (sofar + arg, tail)
    decreases |arg|
  {
    hide ReadArg, Leading;
    var n := Leading(arg);
    Decompose(arg);
    if n == |arg| {
      ReadAtEnd(n, tail, sofar);
    } else {
      var c, rest := arg[n], arg[n + 1..];
      assert arg + tail == Backslashes(n) + [c] + (rest + tail);
      ReadAtChar(n, c, rest + tail, false, sofar);
      ReadPlain(rest, tail, sofar + Backslashes(n) + [c]);
      assert sofar + Backslashes(n) + [c] + rest == sofar + arg;
    }
  }

  /** Between the quotes, the body reads back as the argument, and the closing quote ends the quoting. */
  lemma {:induction false} ReadBody(arg: string, tail: string, sofar: string)
    ensures ReadArg(Body(arg) + [QUOTE] + tail, true, sofar) == ReadArg(tail, false, sofar + arg)
    decreases |arg|
  {
    hide ReadArg, Leading, Body;
    var n := Leading(arg);
    Decompose(arg);
    if n == |arg| {
      BodyEnd(n);
      ReadAtQuote(2 * n, tail, true, sofar);
    } else {
      var c, rest := arg[n], arg[n + 1..];
      var t := Body(rest) + [QUOTE] + tail;
      BodyStep(n, c, rest);
      var m := if c == QUOTE then 2 * n + 1 else n;
      assert Body(arg) + [QUOTE] + tail == Backslashes(m) + [c] + t;
      if c == QUOTE {
        ReadAtQuote(m, t, true, sofar);
      } else {
        ReadAtChar(n, c, t, true, sofar);
      }
      ReadBody(rest, tail, sofar + Backslashes(n) + [c]);
      assert sofar + Backslashes(n) + [c] + rest == sofar + arg;
    }
  }

  /** A quoted argument reads back as itself. */
  lemma ReadQuoted(arg: string, tail: string)
    requires Ends(tail)
    ensures ReadArg(Quote(arg) + tail, false, "") == (arg, tail)
  {
    hide ReadArg, Leading, Body;
    assert "" + arg == arg;
    if NeedsQuotes(arg) {
      var t := Body(arg) + [QUOTE] + tail;
      assert Quote(arg) + tail == Backslashes(0) + [QUOTE] + t;
      ReadAtQuote(0, t, false, "");
      assert "" + Backslashes(0) == "";
      ReadBody(arg, tail, "");
      ReadAtEnd(0, tail, arg);
      assert Backslashes(0) + tail == tail && arg + Backslashes(0) == arg;
    } else {
      ReadPlain(arg, tail, "");
    }
  }

  /** The line, taken apart from the front. */
  lemma {:induction false} JoinFront(args: seq<string>)
    requires |args| > 1
    ensures Join(args) == Quote(args[0]) + " " + Join(args[1..])
  {
    hide Quote;
    var n := |args| - 1;
    if n > 1 {
      JoinFront(args[..n]);
      assert args[..n][1..] == args[1..][..n - 1] && args[1..][n - 1] == args[n];
      var a, b, c := Quote(args[0]), Join(args[1..n]), Quote(args[n]);
      assert args[..n][1..] == args[1..n];
      assert (a + " " + b) + " " + c == a + " " + (b + " " + c);
    } else {
      assert args[..1] == [args[0]] && args[1..] == [args[1]];
    }
  }

  /** For every list of arguments, the child gets back exactly the list that was joined. */
  lemma {:induction false} JoinReadsBack(args: seq<string>)
    ensures ReadArgs(Join(args)) == args
  {
    hide Quote, ReadArg, Join, ReadArgs;
    if args == [] {
      NothingToRead();
    } else {
      var a, rest := args[0], args[1..];
      var tail := if rest == [] then "" else " " + Join(rest);
      assert Join(args) == Quote(a) + tail by {
        if rest == [] {
          JoinOne(a);
          assert args == [a];
        } else {
          JoinFront(args);
        }
      }
      QuoteStart(a);
      ReadQuoted(a, tail);
      ReadOneMore(Quote(a) + tail, a, tail);
      JoinReadsBack(rest);
      if rest == [] {
        NothingToRead();
      } else {
        SkipBlank(Join(rest));
      }
      assert args == [a] + rest;
    }
  }

  lemma JoinOne(a: string)
    ensures Join([a]) == Quote(a)
  {
  }

  lemma NothingToRead()
    ensures ReadArgs("") == [] && Join([]) == ""
  {
  }

  lemma SkipBlank(line: string)
    ensures ReadArgs(" " + line) == ReadArgs(line)
  {
    assert (" " + line)[1..] == line;
  }

  lemma ReadOneMore(line: string, arg: string, rest: string)
    requires line != "" && !Blank(line[0]) && ReadArg(line, false, "") == (arg, rest)
    ensures ReadArgs(line) == [arg] + ReadArgs(rest)
  {
    hide ReadArg;
  }

  lemma QuoteStart(arg: string)
    ensures Quote(arg) != "" && !Blank(Quote(arg)[0])
  {
    if !NeedsQuotes(arg) {
      assert arg[0] in arg;
    }
  }

  // ---------- the program name ----------

  lemma {:induction false} UpToIs(s: string, blanks: bool, n: nat)
    requires n <= |s| && (forall i :: 0 <= i < n ==> !(if blanks then Blank(s[i]) else s[i] == QUOTE))
    requires n < |s| ==> if blanks then Blank(s[n]) else s[n] == QUOTE
    ensures UpTo(s, blanks) == n
    decreases n
  {
    if n > 0 {
      UpToIs(s[1..], blanks, n - 1);
    }
  }

  lemma Heads(a: string, b: string, c: string)
    ensures a + b == a + c <==> b == c
  {
    assert (a + b)[|a|..] == b && (a + c)[|a|..] == c;
  }

  ghost predicate NoQuote(s: string) {
    forall i :: 0 <= i < |s| ==> s[i] != QUOTE
  }

  lemma {:induction false} BodyHasNoQuote(arg: string)
    requires NoQuote(arg)
    ensures NoQuote(Body(arg))
    decreases |arg|
  {
    hide Leading, Body;
    var n := Leading(arg);
    Decompose(arg);
    if n == |arg| {
      BodyEnd(n);
    } else {
      BodyHasNoQuote(arg[n + 1..]);
      BodyStep(n, arg[n], arg[n + 1..]);
    }
  }

  /** Without a quote in it, a body differs from its argument in the backslashes at the end alone. */
  lemma {:induction false} BodyWithoutQuotes(arg: string)
    requires NoQuote(arg)
    ensures Body(arg) == arg <==> arg == "" || arg[|arg| - 1] != BACKSLASH
    decreases |arg|
  {
    hide Leading, Body;
    var n := Leading(arg);
    Decompose(arg);
    if n == |arg| {
      BodyEnd(n);
      assert |Backslashes(2 * n)| == 2 * n;
    } else {
      var c, rest := arg[n], arg[n + 1..];
      assert NoQuote(rest);
      BodyWithoutQuotes(rest);
      BodyStep(n, c, rest);
      Heads(Backslashes(n) + [c], rest, Body(rest));
    }
  }

  lemma UpToNoQuote(s: string)
    ensures forall i :: 0 <= i < UpTo(s, false) ==> s[i] != QUOTE
  {
  }

  /** The program name comes back exactly if it has no quote and, where it needs quoting, no backslash at its end. */
  lemma ProgramReadsBack(program: string, args: seq<string>)
    ensures ReadLine(Join([program] + args)) == [program] + args
       <==> QUOTE !in program && !(NeedsQuotes(program) && program != "" && program[|program| - 1] == BACKSLASH)
  {
    hide Body, ReadArgs, Join, ReadLine, UpTo;
    var all := [program] + args;
    var tail := if args == [] then "" else " " + Join(args);
    assert Join(all) == Quote(program) + tail by {
      if args == [] {
        JoinOne(program);
        assert all == [program];
      } else {
        assert all[1..] == args;
        JoinFront(all);
      }
    }
    TailReadsBack(args);
    if !NeedsQuotes(program) {
      PlainProgram(program, tail);
    } else if QUOTE !in program {
      QuotedProgram(program, tail);
      assert NoQuote(program);
      BodyWithoutQuotes(program);
      assert ([Body(program)] + args == [program] + args) == (Body(program) == program) by {
        assert ([Body(program)] + args)[0] == Body(program) && ([program] + args)[0] == program;
      }
    } else {
      FirstHasNoQuote(Quote(program) + tail);
    }
  }

  lemma PlainProgram(program: string, tail: string)
    requires !NeedsQuotes(program) && Ends(tail)
    ensures ReadLine(program + tail) == [program] + ReadArgs(tail)
  {
    hide ReadArgs;
    var line := program + tail;
    assert program[0] in program;
    UpToIs(line, true, |program|);
    assert line[..|program|] == program && line[|program|..] == tail;
  }

  lemma QuotedProgram(program: string, tail: string)
    requires NeedsQuotes(program) && QUOTE !in program
    ensures ReadLine(Quote(program) + tail) == [Body(program)] + ReadArgs(tail)
  {
    hide ReadArgs, Body;
    var line, body := Quote(program) + tail, Body(program);
    assert NoQuote(program);
    BodyHasNoQuote(program);
    assert line[1..] == body + [QUOTE] + tail;
    UpToIs(line[1..], false, |body|);
    assert line[1..][..|body|] == body && line[|body| + 2..] == tail;
  }

  lemma FirstHasNoQuote(line: string)
    requires line != "" && line[0] == QUOTE
    ensures QUOTE !in ReadLine(line)[0]
  {
    hide ReadArgs;
    UpToNoQuote(line[1..]);
  }

  lemma TailReadsBack(args: seq<string>)
    ensures ReadArgs(if args == [] then "" else " " + Join(args)) == args
  {
    hide Join, ReadArgs;
    JoinReadsBack(args);
    NothingToRead();
    SkipBlank(Join(args));
  }
}
