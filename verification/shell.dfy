/** The read-dispatch loop of src/main.rs, as a step function over the
    successive results of `read_line`. Each read is the text it returned;
    the empty text is a read of zero bytes, i.e. end of input. */
module Shell {
  import opened Wrappers
  import opened Strings
  import opened Command

  /** Unicode White_Space, the set `char::is_whitespace` tests. */
  predicate IsWhitespace(c: char) {
    || '\t' <= c <= '\r'
    || c == ' '
    || c == '\U{85}'
    || c == '\U{A0}'
    || c == '\U{1680}'
    || '\U{2000}' <= c <= '\U{200A}'
    || c == '\U{2028}'
    || c == '\U{2029}'
    || c == '\U{202F}'
    || c == '\U{205F}'
    || c == '\U{3000}'
  }

  predicate AllWhitespace(s: string) {
    forall i :: 0 <= i < |s| ==> IsWhitespace(s[i])
  }

  /** A token: non-empty, no whitespace. */
  predicate IsToken(t: string) {
    0 < |t| && forall i :: 0 <= i < |t| ==> !IsWhitespace(t[i])
  }

  /** Length of the leading run of non-whitespace characters. */
  function RunLength(s: string): (n: nat)
    ensures n <= |s|
    ensures forall i :: 0 <= i < n ==> !IsWhitespace(s[i])
    ensures n < |s| ==> IsWhitespace(s[n])
  {
    if |s| == 0 || IsWhitespace(s[0]) then 0 else 1 + RunLength(s[1..])
  }

  /** Splitting on whitespace: the maximal runs of non-whitespace
      characters, in order. */
  function Tokenize(s: string): seq<string>
    decreases |s|
  {
    if |s| == 0 then []
    else if IsWhitespace(s[0]) then Tokenize(s[1..])
    else
      var n := RunLength(s);
      [s[..n]] + Tokenize(s[n..])
  }

  /** Every piece is a token. */
  lemma {:induction false} TokenizeGivesTokens(s: string)
    ensures forall i :: 0 <= i < |Tokenize(s)| ==> IsToken(Tokenize(s)[i])
    decreases |s|
  {
    if 0 < |s| {
      if IsWhitespace(s[0]) {
        TokenizeGivesTokens(s[1..]);
      } else {
        var n := RunLength(s);
        TokenizeGivesTokens(s[n..]);
        assert IsToken(s[..n]);
      }
    }
  }

  /** The characters of `s` that are not whitespace, in order. */
  function NonWhitespace(s: string): string {
    if |s| == 0 then ""
    else (if IsWhitespace(s[0]) then "" else [s[0]]) + NonWhitespace(s[1..])
  }

  function Concat(ts: seq<string>): string {
    if |ts| == 0 then "" else ts[0] + Concat(ts[1..])
  }

  lemma {:induction false} NonWhitespaceOfRun(s: string, n: nat)
    requires n <= |s| && forall i :: 0 <= i < n ==> !IsWhitespace(s[i])
    ensures NonWhitespace(s) == s[..n] + NonWhitespace(s[n..])
  {
    if 0 < n {
      NonWhitespaceOfRun(s[1..], n - 1);
      assert s[1..][n - 1..] == s[n..];
      assert s[..n] == [s[0]] + s[1..][..n - 1];
    }
  }

  /** Tokenising drops the whitespace and nothing else. */
  lemma {:induction false} TokensKeepText(s: string)
    ensures Concat(Tokenize(s)) == NonWhitespace(s)
    decreases |s|
  {
    if 0 < |s| {
      if IsWhitespace(s[0]) {
        TokensKeepText(s[1..]);
      } else {
        var n := RunLength(s);
        TokensKeepText(s[n..]);
        NonWhitespaceOfRun(s, n);
        var ts := Tokenize(s);
        assert ts[1..] == Tokenize(s[n..]);
      }
    }
  }

  lemma {:induction false} RunLengthOfToken(t: string, rest: string)
    requires IsToken(t) && (|rest| == 0 || IsWhitespace(rest[0]))
    ensures RunLength(t + rest) == |t|
  {
    if 1 < |t| {
      RunLengthOfToken(t[1..], rest);
      assert (t + rest)[1..] == t[1..] + rest;
    } else {
      assert (t + rest)[1..] == rest;
    }
  }

  /** A token followed by whitespace or nothing is split off whole. */
  lemma TokenizeToken(t: string, rest: string)
    requires IsToken(t) && (|rest| == 0 || IsWhitespace(rest[0]))
    ensures Tokenize(t + rest) == [t] + Tokenize(rest)
  {
    var s := t + rest;
    RunLengthOfToken(t, rest);
    assert s[..|t|] == t && s[|t|..] == rest;
  }

  /** Leading whitespace adds no token and splits none. */
  lemma {:induction false} LeadingWhitespaceIgnored(w: string, s: string)
    requires AllWhitespace(w)
    ensures Tokenize(w + s) == Tokenize(s)
    decreases |w|
  {
    if 0 < |w| {
      assert (w + s)[0] == w[0] && (w + s)[1..] == w[1..] + s;
      LeadingWhitespaceIgnored(w[1..], s);
    } else {
      assert w + s == s;
    }
  }

  /** Splitting the `print` output of tokens gives the tokens back. */
  lemma {:induction false} TokenizeJoined(ts: seq<string>)
    requires forall i :: 0 <= i < |ts| ==> IsToken(ts[i])
    ensures Tokenize(JoinSpaced(ts)) == ts
  {
    if |ts| == 1 {
      TokenizeToken(ts[0], "");
      assert ts[0] + "" == ts[0];
    } else if 1 < |ts| {
      var t, rest := ts[0], ts[1..];
      JoinSpacedCons(t, rest);
      assert [t] + rest == ts;
      var tail := " " + JoinSpaced(rest);
      assert JoinSpaced(ts) == t + tail;
      TokenizeToken(t, tail);
      assert tail[0] == ' ' && tail[1..] == JoinSpaced(rest);
      assert Tokenize(tail) == Tokenize(JoinSpaced(rest));
      TokenizeJoined(rest);
      assert Tokenize(JoinSpaced(ts)) == [t] + rest;
    }
  }

  /** The command registry: `exit`, `print` and `ls`, nothing else. */
  const Registry: map<string, Cmd> := map["exit" := Exit, "print" := Print, "ls" := List]

  function Lookup(name: string): (c: Option<Cmd>)
    ensures c.Some? <==> name == "exit" || name == "print" || name == "ls"
    ensures name == "exit" ==> c == Some(Exit)
    ensures name == "print" ==> c == Some(Print)
    ensures name == "ls" ==> c == Some(List)
  {
    if name in Registry then Some(Registry[name]) else None
  }

  /** What handling one line leads to: the lines printed, or leaving. */
  datatype Outcome = Continue(output: seq<string>) | Quit

  /** The lines printed for a completed command: its own lines, then its
      error message, if it failed. */
  function Printed(lines: seq<string>, result: Result<(), string>): seq<string> {
    match result
    case Ok(_) => lines
    case Err(message) => lines + [message]
  }

  /** One iteration of the loop after a non-empty read. The line must hold
      a token: `parts[0]` panics on a line of only whitespace. */
  function Step(line: string, open: string -> Directory): (o: Outcome)
    requires 0 < |Tokenize(line)|
    ensures o == Quit <==> Tokenize(line)[0] == "exit"
  {
    var parts := Tokenize(line);
    var name, args := parts[0], parts[1..];
    match Lookup(name)
    case None => Continue([name + ": command not found"])
    case Some(cmd) =>
      match Execute(cmd, args, open)
      case Exited => Quit
      case Completed(lines, result) => Continue(Printed(lines, result))
  }

  /** The first token names the command and the rest are its arguments;
      an unknown name gets exactly `<name>: command not found`; `print`
      prints its arguments joined by spaces; `ls` prints its own lines and
      then, if it failed, its error message verbatim. */
  lemma StepOutcome(line: string, open: string -> Directory)
    requires 0 < |Tokenize(line)|
    ensures var name, args := Tokenize(line)[0], Tokenize(line)[1..];
      && (name != "exit" && name != "print" && name != "ls" ==>
            Step(line, open) == Continue([name + ": command not found"]))
      && (name == "print" ==> Step(line, open) == Continue([JoinSpaced(args)]))
      && (name == "ls" ==>
            var (lines, result) := ListCommand(args, open);
            Step(line, open) == Continue(if result.Ok? then lines else lines + [result.error]))
  {
  }

  /** `exit` as the first token of a read. */
  predicate RequestsExit(line: string) {
    0 < |Tokenize(line)| && Tokenize(line)[0] == "exit"
  }

  /** Every read the loop reaches is end of input or holds a token. */
  predicate Handled(inputs: seq<string>) {
    0 < |inputs| ==>
      inputs[0] == "" || (0 < |Tokenize(inputs[0])| && (RequestsExit(inputs[0]) || Handled(inputs[1..])))
  }

  /** How the loop stopped: a read of zero bytes, `exit`, or the inputs
      given ran out and it waits for more. */
  datatype End = EndOfInput | ExitRequested | AwaitingInput

  datatype Session = Session(output: seq<string>, end: End)

  /** The loop of `main` over successive reads, each non-empty read being
      handled by `handle`. */
  function Loop(inputs: seq<string>, handle: string -> Outcome): Session {
    if |inputs| == 0 then Session([], AwaitingInput)
    else if inputs[0] == "" then Session([], EndOfInput)
    else
      match handle(inputs[0])
      case Quit => Session([], ExitRequested)
      case Continue(out) =>
        var rest := Loop(inputs[1..], handle);
        Session(out + rest.output, rest.end)
  }

  /** How `main` handles a non-empty read. A read without a token lies
      outside `Handled`, so the value given for it is never used. */
  function Handler(open: string -> Directory): string -> Outcome {
    line => if 0 < |Tokenize(line)| then Step(line, open) else Continue([])
  }

  /** The loop of `main` over the given reads. */
  function Run(inputs: seq<string>, open: string -> Directory): Session
    requires Handled(inputs)
  {
    Loop(inputs, Handler(open))
  }

  /** The handler leaves the loop exactly on an `exit` line, and on a line
      with a token it is one step of the loop. */
  lemma HandlerIsStep(open: string -> Directory, line: string)
    ensures Handler(open)(line) == Quit <==> RequestsExit(line)
    ensures 0 < |Tokenize(line)| ==> Handler(open)(line) == Step(line, open)
  {
  }

  /** Whatever the handler, the loop waits for more input exactly when no
      read was empty and none was handled by leaving. */
  lemma {:induction false} LoopEnd(inputs: seq<string>, handle: string -> Outcome)
    ensures Loop(inputs, handle).end == AwaitingInput <==>
      forall i :: 0 <= i < |inputs| ==> inputs[i] != "" && handle(inputs[i]) != Quit
    ensures Loop(inputs, handle).end == EndOfInput ==> exists i :: 0 <= i < |inputs| && inputs[i] == ""
    ensures Loop(inputs, handle).end == ExitRequested ==> exists i :: 0 <= i < |inputs| && handle(inputs[i]) == Quit
  {
    if 0 < |inputs| && inputs[0] != "" && handle(inputs[0]) != Quit {
      LoopEnd(inputs[1..], handle);
      assert forall i :: 1 <= i < |inputs| ==> inputs[i] == inputs[1..][i - 1];
    }
  }

  /** The loop waits for more input exactly when no read so far was empty
      or requested `exit`; it stops at end of input only after an empty
      read, and on `exit` only after a read requesting it. */
  lemma RunEnd(inputs: seq<string>, open: string -> Directory)
    requires Handled(inputs)
    ensures Run(inputs, open).end == AwaitingInput <==>
      forall i :: 0 <= i < |inputs| ==> inputs[i] != "" && !RequestsExit(inputs[i])
    ensures Run(inputs, open).end == EndOfInput ==> exists i :: 0 <= i < |inputs| && inputs[i] == ""
    ensures Run(inputs, open).end == ExitRequested ==> exists i :: 0 <= i < |inputs| && RequestsExit(inputs[i])
  {
    LoopEnd(inputs, Handler(open));
    forall i | 0 <= i < |inputs|
      ensures Handler(open)(inputs[i]) == Quit <==> RequestsExit(inputs[i])
    {
      HandlerIsStep(open, inputs[i]);
    }
  }

  /** Whatever the handler, reads processed one batch after another give
      the session of both processed together, while the first batch leaves
      the loop waiting for input. */
  lemma {:induction false} LoopConcat(a: seq<string>, b: seq<string>, handle: string -> Outcome)
    requires Loop(a, handle).end == AwaitingInput
    ensures Loop(a + b, handle) ==
      Session(Loop(a, handle).output + Loop(b, handle).output, Loop(b, handle).end)
  {
    if |a| == 0 {
      assert a + b == b;
    } else {
      var x, a' := a[0], a[1..];
      assert x != "" && handle(x).Continue?;
      var out := handle(x).output;
      assert (a + b)[0] == x && (a + b)[1..] == a' + b;
      assert Loop(a, handle) == Session(out + Loop(a', handle).output, Loop(a', handle).end);
      LoopConcat(a', b, handle);
      assert Loop(a + b, handle) == Session(out + Loop(a' + b, handle).output, Loop(a' + b, handle).end);
    }
  }

  /** Reads that all hold a token and none of which exits can be followed
      by any handled reads. */
  lemma {:induction false} HandledConcat(a: seq<string>, b: seq<string>)
    requires Handled(a) && Handled(b)
    requires forall i :: 0 <= i < |a| ==> a[i] != "" && !RequestsExit(a[i])
    ensures Handled(a + b)
  {
    if |a| == 0 {
      assert a + b == b;
    } else {
      assert (a + b)[0] == a[0] && (a + b)[1..] == a[1..] + b;
      assert forall i :: 1 <= i < |a| ==> a[i] == a[1..][i - 1];
      HandledConcat(a[1..], b);
    }
  }

  /** Reads processed one batch after another give the same session as
      processed together, while the first batch neither ends input nor
      exits. */
  lemma RunConcat(a: seq<string>, b: seq<string>, open: string -> Directory)
    requires Handled(a) && Handled(b)
    requires Run(a, open).end == AwaitingInput
    ensures Handled(a + b)
    ensures Run(a + b, open) == Session(Run(a, open).output + Run(b, open).output, Run(b, open).end)
  {
    RunEnd(a, open);
    HandledConcat(a, b);
    LoopConcat(a, b, Handler(open));
  }

  lemma {:induction false} NoTokensInWhitespace(w: string)
    requires AllWhitespace(w)
    ensures Tokenize(w) == []
  {
    if 0 < |w| {
      NoTokensInWhitespace(w[1..]);
    }
  }

  lemma {:induction false} RunLengthAppend(s: string, w: string)
    requires |w| == 0 || IsWhitespace(w[0])
    ensures RunLength(s + w) == RunLength(s)
  {
    if 0 < |s| && !IsWhitespace(s[0]) {
      RunLengthAppend(s[1..], w);
      assert (s + w)[1..] == s[1..] + w;
    } else if |s| == 0 {
      assert s + w == w;
    }
  }

  /** Trailing whitespace, such as the newline `read_line` keeps, adds no
      token. */
  lemma {:induction false} TrailingWhitespaceIgnored(s: string, w: string)
    requires AllWhitespace(w)
    ensures Tokenize(s + w) == Tokenize(s)
    decreases |s|
  {
    if |s| == 0 {
      assert s + w == w;
      NoTokensInWhitespace(w);
    } else if IsWhitespace(s[0]) {
      assert (s + w)[1..] == s[1..] + w;
      TrailingWhitespaceIgnored(s[1..], w);
    } else {
      var n := RunLength(s);
      RunLengthAppend(s, w);
      assert (s + w)[..n] == s[..n] && (s + w)[n..] == s[n..] + w;
      TrailingWhitespaceIgnored(s[n..], w);
    }
  }

  /** A `print` line made of tokens, as read with its newline, echoes its
      arguments, and the echoed line splits back into the same arguments. */
  lemma PrintEchoes(args: seq<string>, open: string -> Directory)
    requires forall i :: 0 <= i < |args| ==> IsToken(args[i])
    ensures 0 < |Tokenize(JoinSpaced(["print"] + args) + "\n")|
    ensures Step(JoinSpaced(["print"] + args) + "\n", open) == Continue([JoinSpaced(args)])
    ensures Tokenize(JoinSpaced(args)) == args
  {
    var ts := ["print"] + args;
    assert IsToken("print");
    assert forall i :: 0 <= i < |ts| ==> IsToken(ts[i]);
    TokenizeJoined(ts);
    TrailingWhitespaceIgnored(JoinSpaced(ts), "\n");
    assert ts[1..] == args;
    StepOutcome(JoinSpaced(ts) + "\n", open);
    TokenizeJoined(args);
  }

  /** A name outside the registry is reported and the loop goes on. */
  lemma UnknownExample(open: string -> Directory)
    ensures Step("foo\n", open) == Continue(["foo: command not found"])
  {
    assert IsToken("foo");
    TokenizeJoined(["foo"]);
    TrailingWhitespaceIgnored("foo", "\n");
    assert "foo" + "\n" == "foo\n";
    StepOutcome("foo\n", open);
    assert "foo" + ": command not found" == "foo: command not found";
  }

  /** A read of zero bytes ends the loop with nothing printed, whatever
      reads would follow. */
  lemma EndOfInputStops(rest: seq<string>, open: string -> Directory)
    ensures Handled([""] + rest)
    ensures Run([""] + rest, open) == Session([], EndOfInput)
  {
  }

  /** A read whose first token is `exit` ends the loop with nothing printed,
      whatever reads would follow. */
  lemma ExitStops(x: string, rest: seq<string>, open: string -> Directory)
    requires RequestsExit(x)
    ensures Handled([x] + rest)
    ensures Run([x] + rest, open) == Session([], ExitRequested)
  {
    var inputs := [x] + rest;
    assert inputs[0] == x;
    HandlerIsStep(open, x);
  }
}
