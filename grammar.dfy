/**
 * The grammar walk of ArgumentCompleter.complete: which completer is
 * dispatched for the token under the cursor, after every token before the
 * cursor has been verified against the completer of its own slot. The
 * walk is: the command name, then options (a value-taking option also
 * consumes the next token), then positional arguments.
 */
module Grammar {
  import opened Wrappers
  import opened OptionTable
  import opened Completers

  /** The state `complete` reads: the completers and tables the constructor
      built. */
  datatype Grammar = Grammar(
    commandCompleter: Completer,
    optionsCompleter: Completer,
    argsCompleters: seq<Completer>,
    fields: map<OptionSpec, FieldType>,
    options: map<string, OptionRef>)

  /** The slot of the token under the cursor. */
  datatype Slot = CommandName | OptionName | OptionValue | Positional(k: nat)

  /** The outcome of the walk: some token before the cursor failed (complete
      returns -1), argsCompleters.get(-1) threw on an empty positional list,
      or a completer is dispatched for the cursor's slot. */
  datatype Selection = Rejected | OutOfBounds | Dispatch(slot: Slot, completer: Completer)

  /** startsWith("-") */
  predicate IsOptionToken(token: string)
  {
    |token| > 0 && token[0] == '-'
  }

  /** The completer of the k-th positional argument: the last one serves
      every index past the end of the list. */
  function Pick(cs: seq<Completer>, k: nat): Completer
    requires |cs| > 0
  {
    cs[if k >= |cs| then |cs| - 1 else k]
  }

  /** An option token before the cursor that passes both checks. */
  predicate AcceptedOption(g: Grammar, run: Behaviour, token: string)
  {
    VerifyCompleter(run, g.optionsCompleter, token) && token in g.options
  }

  /** An accepted option whose option takes a value. */
  predicate ValueOption(g: Grammar, run: Behaviour, token: string)
  {
    IsOptionToken(token) && AcceptedOption(g, run, token) && TakesValue(g.fields, g.options[token])
  }

  /** How many tokens an accepted option occupies. */
  function Width(g: Grammar, token: string): nat
    requires token in g.options
  {
    if TakesValue(g.fields, g.options[token]) then 2 else 1
  }

  /** The walk of `complete` over args with the cursor on token argIndex. */
  function Select(g: Grammar, run: Behaviour, args: seq<string>, argIndex: int): Selection
    requires argIndex <= |args|
  {
    if 0 < argIndex then
      if !VerifyCompleter(run, g.commandCompleter, args[0]) then Rejected
      else OptionWalk(g, run, args, argIndex, 1)
    else Dispatch(CommandName, g.commandCompleter)
  }

  /** The option loop from token `index`, and the check after it. */
  function OptionWalk(g: Grammar, run: Behaviour, args: seq<string>, argIndex: int, index: nat): Selection
    requires index <= argIndex <= |args|
    decreases argIndex - index
  {
    if index < argIndex && IsOptionToken(args[index]) then
      var token := args[index];
      if !VerifyCompleter(run, g.optionsCompleter, token) then Rejected
      else if token !in g.options then Rejected
      else if TakesValue(g.fields, g.options[token]) then
        if index + 1 == argIndex then Dispatch(OptionValue, Null)
        else OptionWalk(g, run, args, argIndex, index + 2)
      else OptionWalk(g, run, args, argIndex, index + 1)
    else if index >= argIndex && index < |args| && IsOptionToken(args[index]) then
      Dispatch(OptionName, g.optionsCompleter)
    else PositionalWalk(g, run, args, argIndex, index, 0)
  }

  /** The positional loop from token `index`, positional number indexArg. */
  function PositionalWalk(g: Grammar, run: Behaviour, args: seq<string>, argIndex: int, index: nat, indexArg: nat): Selection
    requires index <= argIndex <= |args|
    decreases argIndex - index
  {
    if |g.argsCompleters| == 0 then OutOfBounds
    else if index < argIndex then
      if !VerifyCompleter(run, Pick(g.argsCompleters, indexArg), args[index]) then Rejected
      else PositionalWalk(g, run, args, argIndex, index + 1, indexArg + 1)
    else Dispatch(Positional(indexArg), Pick(g.argsCompleters, indexArg))
  }

  /** Tokens from..to-1 are accepted options, each followed by its value
      when it takes one, and the last of them ends exactly at `to`. */
  predicate OptionRun(g: Grammar, run: Behaviour, args: seq<string>, from: nat, to: nat)
    requires from <= to <= |args|
    decreases (to as int) - (from as int)
  {
    from == to ||
    (IsOptionToken(args[from]) && AcceptedOption(g, run, args[from]) &&
     from + Width(g, args[from]) <= to &&
     OptionRun(g, run, args, from + Width(g, args[from]), to))
  }

  /** Token p ends the options: it is the cursor token and not an option
      token, or it is before the cursor and not an option token. */
  predicate EndsOptions(args: seq<string>, argIndex: int, p: nat)
    requires p <= argIndex <= |args|
  {
    if p < argIndex then !IsOptionToken(args[p])
    else !(p < |args| && IsOptionToken(args[p]))
  }

  /** The run of options that starts at `from` ends at token p. */
  predicate OptionsEndAt(g: Grammar, run: Behaviour, args: seq<string>, argIndex: int, from: nat, p: nat)
    requires argIndex <= |args|
  {
    from <= p <= argIndex && OptionRun(g, run, args, from, p) && EndsOptions(args, argIndex, p)
  }

  /** Every positional token from `index` to the cursor verifies against
      the completer of its position. */
  predicate PositionalsVerify(g: Grammar, run: Behaviour, args: seq<string>, argIndex: int, index: nat, indexArg: nat)
    requires index <= argIndex <= |args| && |g.argsCompleters| > 0
  {
    forall t :: index <= t < argIndex ==>
      VerifyCompleter(run, Pick(g.argsCompleters, indexArg + (t - index)), args[t])
  }

  // ---------------------------------------------------------------------
  // The command slot

  /** With the cursor on the command name the command-name completer is
      dispatched, whatever the tokens and completers say; past it, a
      command name that fails verification rejects the whole call. */
  lemma CommandSlot(g: Grammar, run: Behaviour, args: seq<string>, argIndex: int, run': Behaviour, args': seq<string>)
    requires argIndex <= |args| && argIndex <= |args'|
    ensures argIndex <= 0 ==>
      Select(g, run, args, argIndex) == Select(g, run', args', argIndex) == Dispatch(CommandName, g.commandCompleter)
    ensures 0 < argIndex && !VerifyCompleter(run, g.commandCompleter, args[0]) ==>
      Select(g, run, args, argIndex) == Rejected
  {
  }

  // ---------------------------------------------------------------------
  // The option phase

  /** Walking over a run of accepted options lands where the run ends. */
  lemma {:induction false} OptionRunWalk(g: Grammar, run: Behaviour, args: seq<string>, argIndex: int, from: nat, to: nat)
    requires from <= to <= argIndex <= |args|
    requires OptionRun(g, run, args, from, to)
    ensures OptionWalk(g, run, args, argIndex, from) == OptionWalk(g, run, args, argIndex, to)
    decreases (to as int) - (from as int)
  {
    if from < to {
      OptionRunWalk(g, run, args, argIndex, from + Width(g, args[from]), to);
    }
  }

  /** An option token that the walk reaches before the cursor and that
      fails the options completer's verification or is not an exact key of
      the option table rejects the call. */
  lemma BadOptionRejects(g: Grammar, run: Behaviour, args: seq<string>, argIndex: int, i: nat)
    requires 1 <= i < argIndex <= |args|
    requires VerifyCompleter(run, g.commandCompleter, args[0])
    requires OptionRun(g, run, args, 1, i)
    requires IsOptionToken(args[i]) && !AcceptedOption(g, run, args[i])
    ensures Select(g, run, args, argIndex) == Rejected
  {
    OptionRunWalk(g, run, args, argIndex, 1, i);
  }

  /** The walk from `from` dispatches the value slot exactly when the
      tokens from `from` run up to a value-taking option just before the
      cursor. */
  lemma {:induction false} OptionWalkValue(g: Grammar, run: Behaviour, args: seq<string>, argIndex: int, from: nat)
    requires from <= argIndex <= |args|
    ensures OptionWalk(g, run, args, argIndex, from).Dispatch? &&
            OptionWalk(g, run, args, argIndex, from).slot == OptionValue
      <==> from < argIndex && OptionRun(g, run, args, from, argIndex - 1) && ValueOption(g, run, args[argIndex - 1])
    ensures OptionWalk(g, run, args, argIndex, from).Dispatch? &&
            OptionWalk(g, run, args, argIndex, from).slot == OptionValue ==>
      OptionWalk(g, run, args, argIndex, from).completer == Null
    decreases argIndex - from
  {
    var w := OptionWalk(g, run, args, argIndex, from);
    if from < argIndex && OptionRun(g, run, args, from, argIndex - 1) && ValueOption(g, run, args[argIndex - 1]) {
      OptionRunWalk(g, run, args, argIndex, from, argIndex - 1);
    }
    if from < argIndex && IsOptionToken(args[from]) && AcceptedOption(g, run, args[from]) {
      var next := from + Width(g, args[from]);
      if next <= argIndex {
        OptionWalkValue(g, run, args, argIndex, next);
      }
    }
    if from < argIndex {
      PositionalNotValue(g, run, args, argIndex, from, 0);
    }
  }

  /** The positional loop never dispatches an option slot. */
  lemma {:induction false} PositionalNotValue(g: Grammar, run: Behaviour, args: seq<string>, argIndex: int, index: nat, indexArg: nat)
    requires index <= argIndex <= |args|
    ensures var w := PositionalWalk(g, run, args, argIndex, index, indexArg);
      w.Dispatch? ==> w.slot.Positional?
    decreases argIndex - index
  {
    if |g.argsCompleters| > 0 && index < argIndex {
      PositionalNotValue(g, run, args, argIndex, index + 1, indexArg + 1);
    }
  }

  /** The walk from `from` dispatches the options completer for the
      cursor token exactly when the tokens from `from` run up to the
      cursor and the cursor token starts with '-'. */
  lemma {:induction false} OptionWalkName(g: Grammar, run: Behaviour, args: seq<string>, argIndex: int, from: nat)
    requires from <= argIndex <= |args|
    ensures OptionWalk(g, run, args, argIndex, from).Dispatch? &&
            OptionWalk(g, run, args, argIndex, from).slot == OptionName
      <==> OptionRun(g, run, args, from, argIndex) && argIndex < |args| && IsOptionToken(args[argIndex])
    ensures OptionWalk(g, run, args, argIndex, from).Dispatch? &&
            OptionWalk(g, run, args, argIndex, from).slot == OptionName ==>
      OptionWalk(g, run, args, argIndex, from).completer == g.optionsCompleter
    decreases argIndex - from
  {
    if OptionRun(g, run, args, from, argIndex) {
      OptionRunWalk(g, run, args, argIndex, from, argIndex);
    }
    if from < argIndex && IsOptionToken(args[from]) && AcceptedOption(g, run, args[from]) {
      var next := from + Width(g, args[from]);
      if next <= argIndex {
        OptionWalkName(g, run, args, argIndex, next);
      }
    }
    PositionalNotValue(g, run, args, argIndex, from, 0);
  }

  /** All positional tokens from `index` verify iff the first one does
      and all from the next one do. */
  lemma PositionalsVerifyStep(g: Grammar, run: Behaviour, args: seq<string>, argIndex: int, index: nat, indexArg: nat)
    requires index < argIndex <= |args| && |g.argsCompleters| > 0
    ensures PositionalsVerify(g, run, args, argIndex, index, indexArg) <==>
      VerifyCompleter(run, Pick(g.argsCompleters, indexArg), args[index]) &&
      PositionalsVerify(g, run, args, argIndex, index + 1, indexArg + 1)
  {
    if !PositionalsVerify(g, run, args, argIndex, index, indexArg) {
      var t :| index <= t < argIndex &&
        !VerifyCompleter(run, Pick(g.argsCompleters, indexArg + (t - index)), args[t]);
      if t > index {
        assert indexArg + 1 + (t - (index + 1)) == indexArg + (t - index);
      }
    } else {
      assert VerifyCompleter(run, Pick(g.argsCompleters, indexArg + (index - index)), args[index]);
      forall t | index + 1 <= t < argIndex
        ensures VerifyCompleter(run, Pick(g.argsCompleters, indexArg + 1 + (t - (index + 1))), args[t])
      {
        assert indexArg + 1 + (t - (index + 1)) == indexArg + (t - index);
      }
    }
  }

  /** Closed form of the positional loop: it throws on an empty list;
      otherwise it rejects unless every token before the cursor verifies
      against the completer of its position, and then it dispatches the
      completer of the cursor's position. */
  lemma {:induction false} PositionalWalkClosedForm(g: Grammar, run: Behaviour, args: seq<string>, argIndex: int, index: nat, indexArg: nat)
    requires index <= argIndex <= |args|
    ensures PositionalWalk(g, run, args, argIndex, index, indexArg) ==
      if |g.argsCompleters| == 0 then OutOfBounds
      else if PositionalsVerify(g, run, args, argIndex, index, indexArg) then
        Dispatch(Positional(indexArg + (argIndex - index)), Pick(g.argsCompleters, indexArg + (argIndex - index)))
      else Rejected
    decreases argIndex - index
  {
    if |g.argsCompleters| > 0 && index < argIndex {
      PositionalWalkClosedForm(g, run, args, argIndex, index + 1, indexArg + 1);
      PositionalsVerifyStep(g, run, args, argIndex, index, indexArg);
    }
  }

  /** Every outcome of the option walk that is not an option slot comes
      from the positional loop started where the run of options ends. */
  lemma {:induction false} OptionWalkPositional(g: Grammar, run: Behaviour, args: seq<string>, argIndex: int, from: nat)
    requires from <= argIndex <= |args|
    requires OptionWalk(g, run, args, argIndex, from).OutOfBounds? ||
      (OptionWalk(g, run, args, argIndex, from).Dispatch? && OptionWalk(g, run, args, argIndex, from).slot.Positional?)
    ensures exists p ::
              OptionsEndAt(g, run, args, argIndex, from, p) &&
              OptionWalk(g, run, args, argIndex, from) == PositionalWalk(g, run, args, argIndex, p, 0)
    decreases argIndex - from
  {
    if from < argIndex && IsOptionToken(args[from]) {
      var next := from + Width(g, args[from]);
      OptionWalkPositional(g, run, args, argIndex, next);
      var p :| OptionsEndAt(g, run, args, argIndex, next, p) &&
        OptionWalk(g, run, args, argIndex, next) == PositionalWalk(g, run, args, argIndex, p, 0);
      assert OptionsEndAt(g, run, args, argIndex, from, p);
    } else {
      assert OptionsEndAt(g, run, args, argIndex, from, from);
    }
  }

  // ---------------------------------------------------------------------
  // The three slots past the command name, stated over the whole walk

  /** Value slot: a value-taking option just before the cursor token (the
      options before it all accepted) dispatches NullCompleter; the
      positional loop never runs. */
  lemma ValueSlot(g: Grammar, run: Behaviour, args: seq<string>, argIndex: int)
    requires argIndex <= |args|
    ensures Select(g, run, args, argIndex).Dispatch? && Select(g, run, args, argIndex).slot == OptionValue
      <==> 1 < argIndex && VerifyCompleter(run, g.commandCompleter, args[0]) &&
           OptionRun(g, run, args, 1, argIndex - 1) && ValueOption(g, run, args[argIndex - 1])
    ensures Select(g, run, args, argIndex).Dispatch? && Select(g, run, args, argIndex).slot == OptionValue ==>
      Select(g, run, args, argIndex).completer == Null
  {
    if 0 < argIndex && VerifyCompleter(run, g.commandCompleter, args[0]) {
      OptionWalkValue(g, run, args, argIndex, 1);
    }
  }

  /** Option at the cursor: when the options before the cursor all run up
      to it and the cursor token starts with '-', the options completer is
      dispatched, and only then. */
  lemma OptionNameSlot(g: Grammar, run: Behaviour, args: seq<string>, argIndex: int)
    requires argIndex <= |args|
    ensures Select(g, run, args, argIndex).Dispatch? && Select(g, run, args, argIndex).slot == OptionName
      <==> 1 <= argIndex < |args| && VerifyCompleter(run, g.commandCompleter, args[0]) &&
           OptionRun(g, run, args, 1, argIndex) && IsOptionToken(args[argIndex])
    ensures Select(g, run, args, argIndex).Dispatch? && Select(g, run, args, argIndex).slot == OptionName ==>
      Select(g, run, args, argIndex).completer == g.optionsCompleter
  {
    if 0 < argIndex && VerifyCompleter(run, g.commandCompleter, args[0]) {
      OptionWalkName(g, run, args, argIndex, 1);
    }
  }

  /** Positional selection: once the options end at token p, the call
      throws on an empty positional list, rejects unless every token from
      p to the cursor verifies against argsCompleters[min(k, size-1)] for
      its position k, and otherwise dispatches that completer for the
      cursor's position argIndex - p. */
  lemma PositionalSlot(g: Grammar, run: Behaviour, args: seq<string>, argIndex: int, p: nat)
    requires 1 <= p <= argIndex <= |args|
    requires VerifyCompleter(run, g.commandCompleter, args[0])
    requires OptionRun(g, run, args, 1, p) && EndsOptions(args, argIndex, p)
    ensures Select(g, run, args, argIndex) ==
      if |g.argsCompleters| == 0 then OutOfBounds
      else if PositionalsVerify(g, run, args, argIndex, p, 0) then
        Dispatch(Positional(argIndex - p), Pick(g.argsCompleters, argIndex - p))
      else Rejected
  {
    OptionRunWalk(g, run, args, argIndex, 1, p);
    PositionalWalkClosedForm(g, run, args, argIndex, p, 0);
  }

  /** Conversely, a positional dispatch or a throw happens only in that
      way: the positional completer for position k is picked after a run
      of options ending k tokens before the cursor. */
  lemma PositionalSlotOnlyAfterOptions(g: Grammar, run: Behaviour, args: seq<string>, argIndex: int)
    requires argIndex <= |args|
    requires Select(g, run, args, argIndex).OutOfBounds? ||
      (Select(g, run, args, argIndex).Dispatch? && Select(g, run, args, argIndex).slot.Positional?)
    ensures 0 < argIndex && VerifyCompleter(run, g.commandCompleter, args[0])
    ensures exists p ::
              OptionsEndAt(g, run, args, argIndex, 1, p) &&
              Select(g, run, args, argIndex) == PositionalWalk(g, run, args, argIndex, p, 0)
  {
    OptionWalkPositional(g, run, args, argIndex, 1);
  }

  /** Only an empty positional list makes the walk throw. */
  lemma OutOfBoundsOnlyWhenEmpty(g: Grammar, run: Behaviour, args: seq<string>, argIndex: int)
    requires argIndex <= |args|
    requires Select(g, run, args, argIndex) == OutOfBounds
    ensures |g.argsCompleters| == 0
  {
    PositionalSlotOnlyAfterOptions(g, run, args, argIndex);
    var p :| OptionsEndAt(g, run, args, argIndex, 1, p) &&
      Select(g, run, args, argIndex) == PositionalWalk(g, run, args, argIndex, p, 0);
    PositionalWalkClosedForm(g, run, args, argIndex, p, 0);
  }

  // ---------------------------------------------------------------------
  // Value tokens are never verified

  lemma {:induction false} OptionRunFrame(g: Grammar, run: Behaviour, args: seq<string>, args': seq<string>, from: nat, to: nat)
    requires from <= to <= |args| == |args'|
    requires forall t :: from <= t < to ==> args[t] == args'[t]
    ensures OptionRun(g, run, args, from, to) == OptionRun(g, run, args', from, to)
    decreases (to as int) - (from as int)
  {
    if from < to && IsOptionToken(args[from]) && AcceptedOption(g, run, args[from]) {
      var next := from + Width(g, args[from]);
      if next <= to {
        OptionRunFrame(g, run, args, args', next, to);
      }
    }
  }

  lemma {:induction false} PositionalWalkFrame(g: Grammar, run: Behaviour, args: seq<string>, args': seq<string>, argIndex: int, index: nat, indexArg: nat)
    requires index <= argIndex <= |args| == |args'|
    requires forall t :: index <= t < |args| ==> args[t] == args'[t]
    ensures PositionalWalk(g, run, args, argIndex, index, indexArg) == PositionalWalk(g, run, args', argIndex, index, indexArg)
    decreases argIndex - index
  {
    if |g.argsCompleters| > 0 && index < argIndex {
      PositionalWalkFrame(g, run, args, args', argIndex, index + 1, indexArg + 1);
    }
  }

  /** The option walk from `from` reads no token before `from`. */
  lemma {:induction false} OptionWalkFrame(g: Grammar, run: Behaviour, args: seq<string>, args': seq<string>, argIndex: int, from: nat)
    requires from <= argIndex <= |args| == |args'|
    requires forall t :: from <= t < |args| ==> args[t] == args'[t]
    ensures OptionWalk(g, run, args, argIndex, from) == OptionWalk(g, run, args', argIndex, from)
    decreases argIndex - from
  {
    PositionalWalkFrame(g, run, args, args', argIndex, from, 0);
    if from < argIndex && IsOptionToken(args[from]) && AcceptedOption(g, run, args[from]) {
      var next := from + Width(g, args[from]);
      if next <= argIndex {
        OptionWalkFrame(g, run, args, args', argIndex, next);
      }
    }
  }

  /** The token after a value-taking option before the cursor is skipped
      without verification: replacing it by anything at all leaves the
      outcome of the walk unchanged. */
  lemma ValueTokenNeverVerified(g: Grammar, run: Behaviour, args: seq<string>, argIndex: int, j: nat, x: string)
    requires 1 <= j && j + 1 < argIndex <= |args|
    requires VerifyCompleter(run, g.commandCompleter, args[0])
    requires OptionRun(g, run, args, 1, j) && ValueOption(g, run, args[j])
    ensures Select(g, run, args[j + 1 := x], argIndex) == Select(g, run, args, argIndex)
  {
    var args' := args[j + 1 := x];
    OptionRunFrame(g, run, args, args', 1, j);
    OptionRunWalk(g, run, args, argIndex, 1, j);
    OptionRunWalk(g, run, args', argIndex, 1, j);
    OptionWalkFrame(g, run, args, args', argIndex, j + 2);
  }
}
