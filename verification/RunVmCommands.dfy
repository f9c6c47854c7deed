/** The command language of buildbot/runvm: the prefixes '=' and '!' and the loop over the commands. */
module RunVmCommands {

  /** The white space matched by \s in a byte string. */
  predicate IsSpace(c: char)
  {
    c == ' ' || c == '\t' || c == '\n' || c == '\r' || c == '\U{0B}' || c == '\U{0C}'
  }

  function SkipSpaces(s: string): string
  {
    if s != "" && IsSpace(s[0]) then SkipSpaces(s[1..]) else s
  }

  predicate StartsWith(s: string, c: char)
  {
    s != "" && s[0] == c
  }

  datatype Command = Command(always: bool, local: bool, text: string)

  /** The first substitution: an optional '=', then '!' and blanks; the '=' is kept. */
  function StripBang(arg: string): (bool, string)
  {
    if StartsWith(arg, '!') then (true, SkipSpaces(arg[1..]))
    else if StartsWith(arg, '=') && StartsWith(arg[1..], '!') then (true, "=" + SkipSpaces(arg[2..]))
    else (false, arg)
  }

  /** The second substitution: '=' and blanks. */
  function StripEquals(arg: string): (bool, string)
  {
    if StartsWith(arg, '=') then (true, SkipSpaces(arg[1..])) else (false, arg)
  }

  function Parse(arg: string): Command
  {
    var (always, rest) := StripBang(arg);
    var (local, text) := StripEquals(rest);
    Command(always, local, text)
  }

  // ----- Printing a command with its prefix and parsing it back

  datatype Prefix = NoPrefix | Equals | Bang | EqualsBang | BangEquals

  function PrefixText(p: Prefix): string
  {
    match p
    case NoPrefix => ""
    case Equals => "="
    case Bang => "!"
    case EqualsBang => "=!"
    case BangEquals => "!="
  }

  function Print(p: Prefix, blanks: string, text: string): string
  {
    PrefixText(p) + blanks + text
  }

  /** Blanks are the characters 9 to 13 and 32. */
  predicate Blank(c: char)
  {
    9 <= c as int <= 13 || c as int == 32
  }

  predicate AllSpaces(s: string)
  {
    forall i :: 0 <= i < |s| ==> Blank(s[i])
  }

  predicate StartsWithBlank(s: string)
  {
    s != "" && Blank(s[0])
  }

  /** When the printed form says what it is meant to say. */
  predicate Unambiguous(p: Prefix, blanks: string, text: string)
  {
    match p
    case NoPrefix => blanks == "" && !StartsWith(text, '=') && !StartsWith(text, '!')
    case Equals => !StartsWithBlank(text) && (blanks != "" || !StartsWith(text, '!'))
    case Bang => !StartsWithBlank(text) && !StartsWith(text, '=')
    case EqualsBang => !StartsWithBlank(text)
    case BangEquals => !StartsWithBlank(text)
  }

  lemma {:induction false} BlanksAreSkipped(blanks: string, text: string)
    requires AllSpaces(blanks)
    ensures SkipSpaces(blanks + text) == SkipSpaces(text)
    ensures |SkipSpaces(text)| <= |text|
    ensures SkipSpaces(text) == text <==> !StartsWithBlank(text)
    ensures !StartsWithBlank(SkipSpaces(text))
  {
    if blanks == "" {
      assert blanks + text == text;
      if StartsWithBlank(text) {
        BlanksAreSkipped("", text[1..]);
      }
    } else {
      assert (blanks + text)[1..] == blanks[1..] + text;
      BlanksAreSkipped(blanks[1..], text);
    }
  }

  lemma PlainParsesIff(blanks: string, text: string)
    requires AllSpaces(blanks)
    ensures Parse(blanks + text) == Command(false, false, text) <==> Unambiguous(NoPrefix, blanks, text)
  {
    if blanks == "" {
      assert blanks + text == text;
    } else {
      assert (blanks + text)[0] == blanks[0] && |blanks + text| > |text|;
    }
  }

  lemma EqualsParsesIff(blanks: string, text: string)
    requires AllSpaces(blanks)
    ensures Parse("=" + blanks + text) == Command(false, true, text) <==> Unambiguous(Equals, blanks, text)
  {
    var arg, tail := "=" + blanks + text, blanks + text;
    BlanksAreSkipped(blanks, text);
    assert arg[0] == '=' && arg[1..] == tail;
    if blanks == "" {
      assert tail == text;
    } else {
      assert tail[0] == blanks[0];
    }
  }

  lemma BangParsesIff(blanks: string, text: string)
    requires AllSpaces(blanks)
    ensures Parse("!" + blanks + text) == Command(true, false, text) <==> Unambiguous(Bang, blanks, text)
  {
    var arg := "!" + blanks + text;
    BlanksAreSkipped(blanks, text);
    assert arg[0] == '!' && arg[1..] == blanks + text;
  }

  /** Round trip, for every prefix, every run of blanks and every command text: exactly the unambiguous
      forms are read back as they were meant. */
  lemma PrintedCommandParsesIff(p: Prefix, blanks: string, text: string)
    requires AllSpaces(blanks)
    ensures Parse(Print(p, blanks, text)) == Command(p.Bang? || p.EqualsBang? || p.BangEquals?,
                                                     p.Equals? || p.EqualsBang? || p.BangEquals?, text)
            <==> Unambiguous(p, blanks, text)
  {
    BlanksAreSkipped(blanks, text);
    match p
    case NoPrefix =>
      assert Print(p, blanks, text) == blanks + text;
      PlainParsesIff(blanks, text);
    case Equals => EqualsParsesIff(blanks, text);
    case Bang => BangParsesIff(blanks, text);
    case EqualsBang =>
      assert Print(p, blanks, text) == "=!" + (blanks + text);
      EqualsBangParses(blanks + text);
    case BangEquals =>
      assert Print(p, blanks, text) == "!=" + (blanks + text);
      BangEqualsParses(blanks + text);
  }

  lemma EqualsBangParses(rest: string)
    ensures Parse("=!" + rest) == Command(true, true, SkipSpaces(rest))
  {
    var arg := "=!" + rest;
    assert arg[1..] == "!" + rest && arg[2..] == rest;
    var kept := "=" + SkipSpaces(rest);
    assert kept[1..] == SkipSpaces(rest);
    BlanksAreSkipped("", rest);
    BlanksAreSkipped("", SkipSpaces(rest));
  }

  lemma BangEqualsParses(rest: string)
    ensures Parse("!=" + rest) == Command(true, true, SkipSpaces(rest))
  {
    assert "!=" + rest == "!" + "" + "=" + rest;
    BlanksBetweenPrefixes("", rest);
  }

  /** Blanks may stand between '!' and '=', in this order. */
  lemma BlanksBetweenPrefixes(blanks: string, rest: string)
    requires AllSpaces(blanks)
    ensures Parse("!" + blanks + "=" + rest) == Command(true, true, SkipSpaces(rest))
  {
    var arg, kept := "!" + blanks + "=" + rest, "=" + rest;
    assert arg[1..] == blanks + kept && kept[1..] == rest;
    BlanksAreSkipped(blanks, kept);
  }

  /** The two orders of the combined prefix mean the same, whatever follows. */
  lemma CombinedPrefixesCommute(rest: string)
    ensures Parse("=!" + rest) == Parse("!=" + rest)
  {
    EqualsBangParses(rest);
    BangEqualsParses(rest);
  }

  // ----- Running the commands

  /** What system() returns: -1 when nothing could be spawned, otherwise a wait status. */
  type Status = s: int | -1 <= s < 0x1_0000 witness 0

  /** The exit status a failing command stands for: its exit byte, or 1 for a signal or no process. */
  function ExitOf(res: Status): int
  {
    if res >= 0x100 then res / 0x100 else 1
  }

  /** The exit byte of a process that ended by itself is kept, whatever the flags in the low byte; a signal
      or a failure to spawn counts as 1. */
  lemma ExitByteIsKept(exit: nat, low: nat)
    requires exit < 256 && low < 256
    ensures ExitOf(exit * 256 + low) == if exit > 0 then exit else 1
    ensures ExitOf(-1) == 1
  {
  }

  /** One command that was executed. */
  datatype Executed = Executed(index: nat, local: bool, text: string)

  /** Which commands run, when results[k] is what command k returns if it is executed: everything up to
      and including the first command whose status is not 0, and after it the commands marked '!'. */
  ghost predicate Runs(commands: seq<Command>, results: seq<Status>, k: nat)
    requires |results| == |commands| && k < |commands|
  {
    commands[k].always || AllSucceed(results[..k])
  }

  predicate AllSucceed(results: seq<Status>)
  {
    forall i :: 0 <= i < |results| ==> results[i] == 0
  }

  ghost predicate Fails(commands: seq<Command>, results: seq<Status>, k: nat)
    requires |results| == |commands| && k < |commands|
  {
    Runs(commands, results, k) && results[k] != 0
  }

  ghost predicate NoFailure(commands: seq<Command>, results: seq<Status>, n: nat)
    requires |results| == |commands| && n <= |commands|
  {
    forall i: nat :: i < n ==> !Fails(commands, results, i)
  }

  ghost predicate IsFirstFailure(commands: seq<Command>, results: seq<Status>, n: nat, f: nat)
    requires |results| == |commands| && n <= |commands|
  {
    f < n && Fails(commands, results, f) && NoFailure(commands, results, f)
  }

  ghost function Trace(commands: seq<Command>, results: seq<Status>, n: nat): seq<Executed>
    requires |results| == |commands| && n <= |commands|
  {
    if n == 0 then []
    else Trace(commands, results, n - 1)
         + if Runs(commands, results, n - 1) then
             [Executed(n - 1, commands[n - 1].local, commands[n - 1].text)]
           else []
  }

  function ParseAll(args: seq<string>): (r: seq<Command>)
    ensures |r| == |args| && forall i :: 0 <= i < |r| ==> r[i] == Parse(args[i])
  {
    seq(|args|, i requires 0 <= i < |args| => Parse(args[i]))
  }

  /** Command k was executed. */
  ghost predicate IsIn(trace: seq<Executed>, k: nat)
  {
    exists i :: 0 <= i < |trace| && trace[i].index == k
  }

  /** What was executed, said of the arguments and of what they returned: the commands marked '!' and those
      before which every executed one returned 0, in order, each where and as it was meant. */
  ghost predicate IsTrace(args: seq<string>, results: seq<Status>, trace: seq<Executed>)
    requires |results| == |args|
  {
    && (forall i, j :: 0 <= i < j < |trace| ==> trace[i].index < trace[j].index)
    && (forall i :: 0 <= i < |trace| ==> Entry(args, trace[i]))
    && forall k: nat :: k < |args| ==>
         (IsIn(trace, k) <==>
          Parse(args[k]).always || forall i :: 0 <= i < |trace| && trace[i].index < k ==> results[trace[i].index] == 0)
  }

  predicate Entry(args: seq<string>, e: Executed)
  {
    e.index < |args| && e.local == Parse(args[e.index]).local && e.text == Parse(args[e.index]).text
  }

  /** The exit status: 0 if all that was executed returned 0, otherwise the exit byte of the first one that
      did not, with 1 for none. */
  ghost predicate ExitsWith(results: seq<Status>, trace: seq<Executed>, ret: int)
    requires forall i :: 0 <= i < |trace| ==> trace[i].index < |results|
  {
    if forall i :: 0 <= i < |trace| ==> results[trace[i].index] == 0 then ret == 0
    else exists f :: 0 <= f < |trace| && results[trace[f].index] != 0
           && (forall i :: 0 <= i < f ==> results[trace[i].index] == 0)
           && ret == if results[trace[f].index] < 256 then 1 else results[trace[f].index] / 256
  }

  /** Entries for some of the first n commands, in order. */
  ghost predicate TraceOf(commands: seq<Command>, n: nat, trace: seq<Executed>)
    requires n <= |commands|
  {
    && (forall i, j :: 0 <= i < j < |trace| ==> trace[i].index < trace[j].index)
    && (forall i :: 0 <= i < |trace| ==> trace[i].index < n)
    && (forall i :: 0 <= i < |trace| ==>
          var c := commands[trace[i].index]; trace[i].local == c.local && trace[i].text == c.text)
  }

  lemma {:induction false} TraceSoFar(commands: seq<Command>, results: seq<Status>, n: nat)
    requires |results| == |commands| && n <= |commands|
    ensures TraceOf(commands, n, Trace(commands, results, n))
  {
    if n > 0 {
      TraceSoFar(commands, results, n - 1);
      TraceExtended(commands, n - 1, Trace(commands, results, n - 1));
    }
  }

  lemma TraceExtended(commands: seq<Command>, n: nat, trace: seq<Executed>)
    requires n < |commands| && TraceOf(commands, n, trace)
    ensures TraceOf(commands, n + 1, trace)
    ensures TraceOf(commands, n + 1, trace + [Executed(n, commands[n].local, commands[n].text)])
  {
  }

  lemma {:induction false} InTraceIff(commands: seq<Command>, results: seq<Status>, n: nat, k: nat)
    requires |results| == |commands| && k < n <= |commands|
    ensures IsIn(Trace(commands, results, n), k) <==> Runs(commands, results, k)
  {
    var before, trace := Trace(commands, results, n - 1), Trace(commands, results, n);
    TraceSoFar(commands, results, n - 1);
    assert before <= trace;
    if k < n - 1 {
      InTraceIff(commands, results, n - 1, k);
      if i :| 0 <= i < |before| && before[i].index == k {
        assert trace[i].index == k;
      }
    } else if Runs(commands, results, k) {
      assert trace[|before|].index == k;
    }
  }

  /** No failure is no result other than 0 in the trace. */
  lemma NoFailureIff(commands: seq<Command>, results: seq<Status>, trace: seq<Executed>, k: nat)
    requires |results| == |commands| && k <= |commands| && trace == Trace(commands, results, |commands|)
    ensures TraceOf(commands, |commands|, trace)
    ensures NoFailure(commands, results, k) <==>
            forall i :: 0 <= i < |trace| && trace[i].index < k ==> results[trace[i].index] == 0
  {
    var n := |commands|;
    TraceSoFar(commands, results, n);
    if NoFailure(commands, results, k) {
      forall i | 0 <= i < |trace| && trace[i].index < k ensures results[trace[i].index] == 0 {
        InTraceIff(commands, results, n, trace[i].index);
        assert IsIn(trace, trace[i].index);
        assert !Fails(commands, results, trace[i].index);
      }
    } else {
      var j: nat :| j < k && Fails(commands, results, j);
      InTraceIff(commands, results, n, j);
      var i :| 0 <= i < |trace| && trace[i].index == j;
    }
  }

  lemma TraceIsTrace(args: seq<string>, results: seq<Status>, trace: seq<Executed>)
    requires |results| == |args| && trace == Trace(ParseAll(args), results, |args|)
    ensures IsTrace(args, results, trace)
  {
    var commands := ParseAll(args);
    TraceSoFar(commands, results, |args|);
    forall k: nat | k < |args|
      ensures IsIn(trace, k) <==>
              Parse(args[k]).always || forall i :: 0 <= i < |trace| && trace[i].index < k ==> results[trace[i].index] == 0
    {
      InTraceIff(commands, results, |args|, k);
      RunsMeans(commands, results, k);
      NoFailureIff(commands, results, trace, k);
    }
  }

  lemma ExitsAsReported(args: seq<string>, results: seq<Status>, trace: seq<Executed>, ret: int)
    requires |results| == |args| && trace == Trace(ParseAll(args), results, |args|)
    requires Reports(ParseAll(args), results, |args|, ret)
    ensures TraceOf(ParseAll(args), |args|, trace)
    ensures ExitsWith(results, trace, ret)
  {
    var commands, n := ParseAll(args), |args|;
    NoFailureIff(commands, results, trace, n);
    if ret != 0 {
      var g: nat :| IsFirstFailure(commands, results, n, g) && ret == ExitOf(results[g]);
      InTraceIff(commands, results, n, g);
      NoFailureIff(commands, results, trace, g);
      var f :| 0 <= f < |trace| && trace[f].index == g;
      assert forall i :: 0 <= i < f ==> trace[i].index < g;
    }
  }

  /** A command printed with a prefix that says so is executed on the host, any other one in the guest, with
      the text that was printed. */
  lemma PrintedCommandRunsThere(args: seq<string>, results: seq<Status>, trace: seq<Executed>, i: nat,
                                p: Prefix, blanks: string, text: string)
    requires |results| == |args| && IsTrace(args, results, trace) && i < |trace|
    requires args[trace[i].index] == Print(p, blanks, text) && AllSpaces(blanks) && Unambiguous(p, blanks, text)
    ensures trace[i].local <==> p.Equals? || p.EqualsBang? || p.BangEquals?
    ensures trace[i].text == text
  {
    PrintedCommandParsesIff(p, blanks, text);
  }

  /** ret is 0 as long as no executed command failed, and stands for the first failure ever after. */
  ghost predicate Reports(commands: seq<Command>, results: seq<Status>, n: nat, ret: int)
    requires |results| == |commands| && n <= |commands|
  {
    && 0 <= ret < 0x100
    && (ret == 0 <==> NoFailure(commands, results, n))
    && (ret != 0 ==> exists f: nat :: IsFirstFailure(commands, results, n, f) && ret == ExitOf(results[f]))
  }

  lemma ReportsNext(commands: seq<Command>, results: seq<Status>, n: nat, ret: int)
    requires |results| == |commands| && n < |commands| && Reports(commands, results, n, ret)
    ensures Runs(commands, results, n) <==> commands[n].always || ret == 0
    ensures Reports(commands, results, n + 1, if ret == 0 && results[n] != 0 then ExitOf(results[n]) else ret)
  {
    RunsMeans(commands, results, n);
    if ret != 0 {
      var f: nat :| IsFirstFailure(commands, results, n, f) && ret == ExitOf(results[f]);
      assert IsFirstFailure(commands, results, n + 1, f);
    } else {
      assert Runs(commands, results, n);
      assert results[n] != 0 ==> IsFirstFailure(commands, results, n + 1, n);
    }
  }

  /** What becomes of $ret after a command has returned. */
  method Record(before: int, res: Status) returns (ret: int)
    ensures ret == if before == 0 && res != 0 then ExitOf(res) else before
  {
    ret := before;
    if res < 0 {
      if ret == 0 {
        ret := 1;
      }
    } else if res > 0 {
      var exitVal := res / 0x100;
      if ret == 0 {
        ret := if exitVal != 0 then exitVal else 1;
      }
    }
  }

  method RunCommands(args: seq<string>, results: seq<Status>) returns (ret: int, trace: seq<Executed>)
    requires |results| == |args|
    ensures trace == Trace(ParseAll(args), results, |args|) && IsTrace(args, results, trace)
    ensures Reports(ParseAll(args), results, |args|, ret) && ExitsWith(results, trace, ret)
  {
    ghost var commands := ParseAll(args);
    ret, trace := 0, [];
    var k := 0;
    while k < |args|
      invariant k <= |args|
      invariant trace == Trace(commands, results, k)
      invariant Reports(commands, results, k, ret)
    {
      var arg := args[k];
      var alwaysRun, localCmd;
      alwaysRun, arg := StripBang(arg).0, StripBang(arg).1;
      localCmd, arg := StripEquals(arg).0, StripEquals(arg).1;
      assert Command(alwaysRun, localCmd, arg) == commands[k];
      ReportsNext(commands, results, k, ret);
      if ret == 0 || alwaysRun {
        trace := trace + [Executed(k, localCmd, arg)];
        ret := Record(ret, results[k]);
      }
      k := k + 1;
    }
    TraceIsTrace(args, results, trace);
    ExitsAsReported(args, results, trace, ret);
  }

  /** That is: a command runs exactly when it is marked '!' or no command executed before it has failed. */
  lemma RunsMeans(commands: seq<Command>, results: seq<Status>, k: nat)
    requires |results| == |commands| && k < |commands|
    ensures Runs(commands, results, k) <==> commands[k].always || NoFailure(commands, results, k)
  {
    if i: nat :| i < k && results[i] != 0 {
      var f := LeastFailing(results, i);
      assert AllSucceed(results[..f]);
      assert Fails(commands, results, f);
    }
  }

  lemma {:induction false} LeastFailing(results: seq<Status>, i: nat) returns (f: nat)
    requires i < |results| && results[i] != 0
    ensures f <= i && results[f] != 0 && forall j: nat :: j < f ==> results[j] == 0
  {
    if j: nat :| j < i && results[j] != 0 {
      f := LeastFailing(results, j);
    } else {
      f := i;
    }
  }
}
