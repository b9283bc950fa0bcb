/**
 * The console loop `main_loop` of langchain_groq_app/app.py, one input line at a
 * time: empty lines are skipped, an exit word ends the session, and every other
 * line is answered by the balance branch, the knowledge-base chain or the
 * language model, in that order. Reading the lines and printing the answers
 * are left to the caller: the session is the list of lines it reads and the
 * list of actions it takes.
 */
module Cli {
  import opened Common
  import opened Text
  import opened Scan
  import opened Tables
  import opened Classifier

  /** What the loop does with one line: print the balance answer, print the
      fixed not-found line, hand the line to the question-answering chain, or
      hand the prompt to the language model. */
  datatype Action =
    | BalanceFound(answer: string)
    | BalanceMissing
    | AskChain(question: string)
    | AskLlm(prompt: string)

  const ExitWords: seq<string> := ["salir", "exit", "quit"]

  /** `user.strip().lower() in {"salir", "exit", "quit"}` */
  predicate IsExit(line: string)
  {
    LowerStr(Strip(line)) in ExitWords
  }

  /** The three branches for one line that is neither empty nor an exit word. */
  function Dispatch(line: string, table: Option<Frame>, chainLoaded: bool): Action
  {
    var id := BalanceQueryId(line);
    if id.Some? && id.value != [] && table.Some? then
      var res := BalanceLookup(table.value, id.value);
      if Found(res) then BalanceFound(res.value) else BalanceMissing
    else if MentionsAny(LowerStr(line), KbTerms) && chainLoaded then AskChain(line)
    else AskLlm(LlmPrompt(line))
  }

  /** The actions of a loop that answers each line with `answer`, on the lines it
      reads up to the first line that makes it `stop`; empty lines are skipped. */
  function Run(lines: seq<string>, stop: string -> bool, answer: string -> Action): seq<Action>
  {
    if lines == [] then []
    else if lines[0] == [] then Run(lines[1..], stop, answer)
    else if stop(lines[0]) then []
    else [answer(lines[0])] + Run(lines[1..], stop, answer)
  }

  /** The actions of `main_loop` on the lines it reads. */
  function Session(lines: seq<string>, table: Option<Frame>, chainLoaded: bool): seq<Action>
  {
    Run(lines, IsExit, line => Dispatch(line, table, chainLoaded))
  }

  /** `main_loop`: the balances are loaded once (`csv` is None when the file is
      missing), then the `while True` loop runs with its `continue` and `break`. */
  method MainLoop(lines: seq<string>, csv: Option<Frame>, chainLoaded: bool) returns (actions: seq<Action>)
    ensures actions == Session(lines, LoadBalances(csv), chainLoaded)
  {
    var table := LoadBalances(csv);
    ghost var answer := line => Dispatch(line, table, chainLoaded);
    actions := [];
    var i := 0;
    while i < |lines|
      invariant 0 <= i <= |lines|
      invariant actions + Run(lines[i..], IsExit, answer) == Run(lines, IsExit, answer)
    {
      var user := lines[i];
      ghost var before := actions;
      i := i + 1;
      if user == [] {
        RunSkips(lines, i - 1, IsExit, answer, actions);
        continue;
      }
      if IsExit(user) {
        RunStops(lines, i - 1, IsExit, answer, actions);
        break;
      }
      var a := Answer(user, table, chainLoaded);
      assert a == answer(user);
      actions := actions + [a];
      RunAnswers(lines, i - 1, IsExit, answer, before);
    }
    if i == |lines| {
      assert lines[i..] == [];
    }
  }

  /** The loop skips an empty line `i`. */
  lemma RunSkips(lines: seq<string>, i: nat, stop: string -> bool, answer: string -> Action, actions: seq<Action>)
    requires i < |lines| && lines[i] == []
    requires actions + Run(lines[i..], stop, answer) == Run(lines, stop, answer)
    ensures actions + Run(lines[i + 1..], stop, answer) == Run(lines, stop, answer)
  {
    assert lines[i..][0] == lines[i] && lines[i..][1..] == lines[i + 1..];
  }

  /** The loop stops at line `i`. */
  lemma RunStops(lines: seq<string>, i: nat, stop: string -> bool, answer: string -> Action, actions: seq<Action>)
    requires i < |lines| && lines[i] != [] && stop(lines[i])
    requires actions + Run(lines[i..], stop, answer) == Run(lines, stop, answer)
    ensures actions == Run(lines, stop, answer)
  {
    assert lines[i..][0] == lines[i];
  }

  /** The loop answers line `i` and goes on. */
  lemma RunAnswers(lines: seq<string>, i: nat, stop: string -> bool, answer: string -> Action, actions: seq<Action>)
    requires i < |lines| && lines[i] != [] && !stop(lines[i])
    requires actions + Run(lines[i..], stop, answer) == Run(lines, stop, answer)
    ensures (actions + [answer(lines[i])]) + Run(lines[i + 1..], stop, answer) == Run(lines, stop, answer)
  {
    assert lines[i..][0] == lines[i] && lines[i..][1..] == lines[i + 1..];
    var rest := Run(lines[i + 1..], stop, answer);
    assert (actions + [answer(lines[i])]) + rest == actions + ([answer(lines[i])] + rest);
  }

  /** One pass of the loop body after the empty and exit tests. */
  method Answer(user: string, table: Option<Frame>, chainLoaded: bool) returns (a: Action)
    ensures a == Dispatch(user, table, chainLoaded)
  {
    var balId := BalanceQueryId(user);
    if balId.Some? && balId.value != [] && table.Some? {
      var res := FindBalance(table.value, balId.value);
      if Found(res) {
        return BalanceFound(res.value);
      } else {
        return BalanceMissing;
      }
    }
    var kb := IsKbQuery(user);
    if kb && chainLoaded {
      return AskChain(user);
    }
    return AskLlm(LlmPrompt(user));
  }

  // ---------------------------------------------------------------------------
  // Properties

  /** The loop answers at most once per line. */
  lemma {:induction false} RunLength(lines: seq<string>, stop: string -> bool, answer: string -> Action)
    ensures |Run(lines, stop, answer)| <= |lines|
  {
    if lines != [] {
      RunLength(lines[1..], stop, answer);
    }
  }

  /** An empty line changes nothing, wherever it is read. */
  lemma {:induction false} EmptyLineSkipped(a: seq<string>, b: seq<string>, stop: string -> bool, answer: string -> Action)
    ensures Run(a + [""] + b, stop, answer) == Run(a + b, stop, answer)
  {
    if a == [] {
      assert a + [""] + b == [""] + b && a + b == b;
      assert ([""] + b)[0] == "" && ([""] + b)[1..] == b;
    } else {
      EmptyLineSkipped(a[1..], b, stop, answer);
      assert (a + [""] + b)[1..] == a[1..] + [""] + b;
      assert (a + b)[1..] == a[1..] + b;
    }
  }

  /** An exit word ends the session: nothing after it is read. */
  lemma {:induction false} ExitEnds(a: seq<string>, x: string, b: seq<string>, stop: string -> bool, answer: string -> Action)
    requires x != [] && stop(x)
    requires forall k :: 0 <= k < |a| ==> a[k] == [] || !stop(a[k])
    ensures Run(a + [x] + b, stop, answer) == Run(a, stop, answer)
  {
    if a == [] {
      assert (a + [x] + b)[0] == x;
    } else {
      ExitEnds(a[1..], x, b, stop, answer);
      assert (a + [x] + b)[0] == a[0];
      assert (a + [x] + b)[1..] == a[1..] + [x] + b;
    }
  }

  /** Without exit words, every non-empty line is answered, in order. */
  lemma {:induction false} RunAnswersAll(lines: seq<string>, stop: string -> bool, answer: string -> Action)
    requires forall k :: 0 <= k < |lines| ==> lines[k] == [] || !stop(lines[k])
    ensures Run(lines, stop, answer) == Answers(NonEmpty(lines), answer)
  {
    if lines != [] {
      assert forall k :: 0 <= k < |lines| - 1 ==> lines[1..][k] == lines[k + 1];
      RunAnswersAll(lines[1..], stop, answer);
      if lines[0] != [] {
        AnswersCons(lines[0], NonEmpty(lines[1..]), answer);
      }
    }
  }

  lemma AnswersCons(x: string, rest: seq<string>, answer: string -> Action)
    ensures Answers([x] + rest, answer) == [answer(x)] + Answers(rest, answer)
  {
    var l, r := Answers([x] + rest, answer), [answer(x)] + Answers(rest, answer);
    forall k | 0 <= k < |l| ensures l[k] == r[k] {
      if k > 0 {
        assert ([x] + rest)[k] == rest[k - 1];
      }
    }
  }

  /** The lines that are not empty, in order. */
  function NonEmpty(lines: seq<string>): seq<string>
  {
    if lines == [] then [] else (if lines[0] == [] then [] else [lines[0]]) + NonEmpty(lines[1..])
  }

  function Answers(lines: seq<string>, answer: string -> Action): (r: seq<Action>)
    ensures |r| == |lines| && forall k :: 0 <= k < |lines| ==> r[k] == answer(lines[k])
  {
    seq(|lines|, k requires 0 <= k < |lines| => answer(lines[k]))
  }

  /** With an identifier extracted and the table loaded, the balance branch
      answers (found or not found) and the chain and the model are not used. */
  lemma BalanceFirst(line: string, table: Option<Frame>, chainLoaded: bool)
    requires BalanceQueryId(line).Some? && table.Some?
    ensures var a := Dispatch(line, table, chainLoaded);
      && (a.BalanceFound? || a.BalanceMissing?)
      && (a.BalanceFound? <==> BalanceLookup(table.value, BalanceQueryId(line).value).Some?)
      && (a.BalanceFound? ==> a.answer == BalanceLookup(table.value, BalanceQueryId(line).value).value)
  {
    BalanceQueryNonEmpty(line);
    var res := BalanceLookup(table.value, BalanceQueryId(line).value);
    if res.Some? {
      BalanceLookupNonEmpty(table.value, BalanceQueryId(line).value);
    }
  }

  /** Otherwise the chain answers exactly when the line mentions a knowledge-base
      term and the chain exists, and the model answers every other line; the
      table is never scanned for identifiers. */
  lemma KbThenLlm(line: string, table: Option<Frame>, chainLoaded: bool)
    requires BalanceQueryId(line).None? || table.None?
    ensures var a := Dispatch(line, table, chainLoaded);
      && (a.AskChain? <==> MentionsAny(LowerStr(line), KbTerms) && chainLoaded)
      && (a.AskChain? ==> a.question == line)
      && (!a.AskChain? ==> a.AskLlm? && Contains(a.prompt, line))
      && a == Dispatch(line, None, chainLoaded)
  {
  }
}
