/**
  The interactive selection loop: a machine with the states Selecting and
  Exited, driven by what the user types. `0` exits, `1..N` views that
  result, any other number is refused as an invalid number, and text that
  is not a number is refused as invalid input. Reading and pretty-printing
  the chosen file is the opaque action `View(path)`.
 */
module Selection {

  /** One answer to the prompt: text that `int(...)` accepts, or text it rejects. */
  datatype Input = Number(value: int) | NotANumber

  datatype State = Selecting | Exited

  /** What the program does in reply to one answer. */
  datatype Action = Exit | View(path: string) | InvalidNumber | InvalidInput

  /** The state a run is in and the replies it has given so far. */
  datatype Outcome = Outcome(state: State, trace: seq<Action>)

  /** The reply to one answer while selecting among `results`. */
  function Respond(results: seq<string>, input: Input): (a: Action)
    ensures a == Exit <==> input == Number(0)
    ensures a.View? <==> input.Number? && 1 <= input.value <= |results|
    ensures a.View? ==> a.path == results[input.value - 1]
    ensures a == InvalidNumber <==> input.Number? && (input.value < 0 || input.value > |results|)
    ensures a == InvalidInput <==> input == NotANumber
  {
    match input
    case NotANumber => InvalidInput
    case Number(k) =>
      if k == 0 then Exit
      else if 1 <= k <= |results| then View(results[k - 1])
      else InvalidNumber
  }

  /** The state after a reply: only `Exit` leaves Selecting. */
  function After(a: Action): (s: State)
    ensures s == Exited <==> a == Exit
  {
    if a == Exit then Exited else Selecting
  }

  /**
    The run over a sequence of answers, one reply per answer read, stopping
    after the first `Exit`; the answers after it are never read.
   */
  function Run(results: seq<string>, inputs: seq<Input>): (o: Outcome)
    ensures |o.trace| <= |inputs|
    ensures o.state == Exited <==> o.trace != [] && o.trace[|o.trace| - 1] == Exit
    decreases |inputs|
  {
    if inputs == [] then Outcome(Selecting, [])
    else
      var a := Respond(results, inputs[0]);
      if After(a) == Exited then Outcome(Exited, [a])
      else
        var rest := Run(results, inputs[1..]);
        Outcome(rest.state, [a] + rest.trace)
  }

  /** The loop as the source runs it: read an answer, reply, and break on `0`. */
  method SelectionLoop(results: seq<string>, inputs: seq<Input>) returns (state: State, trace: seq<Action>)
    ensures Outcome(state, trace) == Run(results, inputs)
  {
    state, trace := Selecting, [];
    var i := 0;
    assert inputs[0..] == inputs;
    while i < |inputs|
      invariant 0 <= i <= |inputs|
      invariant state == Selecting
      invariant Run(results, inputs) == Prefixed(trace, Run(results, inputs[i..]))
    {
      RunStep(results, inputs, i);
      ghost var before := trace;
      ghost var next := Run(results, inputs[i + 1..]);
      var input := inputs[i];
      i := i + 1;
      match input {
        case NotANumber =>
          trace := trace + [InvalidInput];
        case Number(selected) =>
          if selected == 0 {
            trace := trace + [Exit];
            state := Exited;
            break;
          } else if 1 <= selected <= |results| {
            trace := trace + [View(results[selected - 1])];
          } else {
            trace := trace + [InvalidNumber];
          }
      }
      PrefixedCons(before, trace[|before|], next);
      assert trace == before + [trace[|before|]];
    }
    assert inputs[i..] == [] ==> Run(results, inputs[i..]) == Outcome(Selecting, []);
  }

  /** A run's outcome with the replies `t` given before it. */
  function Prefixed(t: seq<Action>, o: Outcome): Outcome {
    Outcome(o.state, t + o.trace)
  }

  lemma PrefixedCons(t: seq<Action>, a: Action, o: Outcome)
    ensures Prefixed(t, Outcome(o.state, [a] + o.trace)) == Prefixed(t + [a], o)
  {
    assert t + ([a] + o.trace) == (t + [a]) + o.trace;
  }

  lemma RunStep(results: seq<string>, inputs: seq<Input>, i: nat)
    requires i < |inputs|
    ensures var a := Respond(results, inputs[i]);
      Run(results, inputs[i..]) ==
        if a == Exit then Outcome(Exited, [a])
        else Outcome(Run(results, inputs[i + 1..]).state, [a] + Run(results, inputs[i + 1..]).trace)
  {
    assert inputs[i..][1..] == inputs[i + 1..];
  }

  /** Each reply in the trace is the reply to the answer at the same position. */
  lemma {:induction false} RunTraceResponds(results: seq<string>, inputs: seq<Input>)
    ensures forall j :: 0 <= j < |Run(results, inputs).trace| ==>
              Run(results, inputs).trace[j] == Respond(results, inputs[j])
    decreases |inputs|
  {
    if inputs != [] && Respond(results, inputs[0]) != Exit {
      RunTraceResponds(results, inputs[1..]);
    }
  }

  /** A run exits exactly when some answer is `0`, and it stops at the first one. */
  lemma {:induction false} RunExitsAtFirstZero(results: seq<string>, inputs: seq<Input>)
    ensures var o := Run(results, inputs);
      (o.state == Exited <==> Number(0) in inputs) &&
      (o.state == Exited ==> |o.trace| >= 1 && inputs[|o.trace| - 1] == Number(0) &&
                             Number(0) !in inputs[..|o.trace| - 1])
    decreases |inputs|
  {
    if inputs != [] {
      if Respond(results, inputs[0]) != Exit {
        RunExitsAtFirstZero(results, inputs[1..]);
        var rest := Run(results, inputs[1..]);
        assert inputs == [inputs[0]] + inputs[1..];
        if rest.state == Exited {
          assert inputs[..|rest.trace|] == [inputs[0]] + inputs[1..][..|rest.trace| - 1];
        }
      } else {
        assert inputs[..0] == [];
      }
    }
  }

  /** A run that does not exit reads every answer. */
  lemma {:induction false} RunReadsAllUnlessExit(results: seq<string>, inputs: seq<Input>)
    ensures Run(results, inputs).state == Selecting ==> |Run(results, inputs).trace| == |inputs|
    decreases |inputs|
  {
    if inputs != [] && Respond(results, inputs[0]) != Exit {
      RunReadsAllUnlessExit(results, inputs[1..]);
    }
  }

  /**
    What a run does: exactly one reply per answer read, each the reply to
    that answer; it ends in Exited exactly when some answer is `0`, and then
    the last answer read is the first `0`; otherwise every answer is read.
   */
  lemma RunReplies(results: seq<string>, inputs: seq<Input>)
    ensures var o := Run(results, inputs);
      |o.trace| <= |inputs| &&
      (forall j :: 0 <= j < |o.trace| ==> o.trace[j] == Respond(results, inputs[j])) &&
      (o.state == Exited <==> Number(0) in inputs) &&
      (o.state == Exited ==> |o.trace| >= 1 && inputs[|o.trace| - 1] == Number(0) &&
                             Number(0) !in inputs[..|o.trace| - 1]) &&
      (o.state == Selecting ==> |o.trace| == |inputs|)
  {
    RunTraceResponds(results, inputs);
    RunExitsAtFirstZero(results, inputs);
    RunReadsAllUnlessExit(results, inputs);
  }

  /** Answering `0` ends the loop, whatever the results are and whatever came before. */
  lemma ZeroExits(results: seq<string>, before: seq<Input>, after: seq<Input>)
    ensures Run(results, before + [Number(0)] + after).state == Exited
  {
    RunReplies(results, before + [Number(0)] + after);
    assert (before + [Number(0)] + after)[|before|] == Number(0);
  }

  /** The answers read after an exit have no effect. */
  lemma {:induction false} InputsAfterExitIgnored(results: seq<string>, inputs: seq<Input>, more: seq<Input>)
    requires Run(results, inputs).state == Exited
    ensures Run(results, inputs + more) == Run(results, inputs)
    decreases |inputs|
  {
    assert inputs != [];
    assert (inputs + more)[0] == inputs[0];
    if Respond(results, inputs[0]) != Exit {
      assert (inputs + more)[1..] == inputs[1..] + more;
      InputsAfterExitIgnored(results, inputs[1..], more);
    }
  }

  /** With N results, `N` is the last number that views a result and `N + 1` is refused. */
  lemma SelectionBoundary(results: seq<string>)
    requires |results| > 0
    ensures Respond(results, Number(|results|)) == View(results[|results| - 1])
    ensures Respond(results, Number(|results| + 1)) == InvalidNumber
  {
  }
}
