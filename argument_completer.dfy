/**
 * ArgumentCompleter: the completer of one command's arguments. It is
 * built from the command's name, the @Option fields of its action class
 * and the positional completers the command supplies; `complete` walks
 * the tokens before the cursor (command name, options, positionals),
 * dispatches the completer of the cursor's slot, translates its offset
 * into the buffer and trims trailing delimiters from the candidates when
 * the cursor rests on a delimiter inside the buffer.
 */
module Engine {
  import opened Wrappers
  import opened Delimiters
  import opened CommandNames
  import opened OptionTable
  import opened Completers
  import opened Arguments
  import opened Grammar
  import opened JavaInt

  /** The command the completer is built for (an AbstractCommand): the
      fields of its action class and superclasses in the order reflection
      visits them, and what it offers for positional arguments. */
  datatype CommandFunction = CommandFunction(actionFields: seq<FieldDecl>, arguments: ArgumentSource)

  /** The caller's candidate list, which complete fills (through the
      dispatched completer) and rewrites in place. */
  class CandidateList {
    var items: seq<string>

    constructor (items: seq<string>)
      ensures this.items == items
    {
      this.items := items;
    }
  }

  /** What complete does: return an offset (-1 for "no completion"), or
      throw IndexOutOfBoundsException from an empty positional list. */
  datatype Outcome = Returned(value: int) | Thrown

  /** Trimming happens when the cursor is inside the buffer and on a
      delimiter. */
  predicate TrimsCandidates(buffer: string, cursor: int)
    requires 0 <= cursor <= |buffer|
  {
    cursor != |buffer| && IsDelimiter(buffer, cursor)
  }

  /** Every candidate with its trailing delimiters trimmed. */
  function TrimAll(candidates: seq<string>): seq<string>
  {
    seq(|candidates|, i requires 0 <= i < |candidates| => TrimDelimiters(candidates[i]))
  }

  /** complete on (buffer, cursor) with the candidate list `before`: the
      outcome and the candidate list afterwards. */
  function CompleteSpec(g: Grammar, run: Behaviour, parse: Tokenizer, buffer: string, cursor: int, before: seq<string>): (Outcome, seq<string>)
    requires 0 <= cursor <= |buffer| && TokenizerContract(parse, buffer, cursor)
  {
    var list := Delimit(buffer, cursor, parse);
    match Select(g, run, list.arguments, list.cursorArgumentIndex)
    case Rejected => (Returned(-1), before)
    case OutOfBounds => (Thrown, before)
    case Dispatch(_, comp) =>
      var reply := run(comp, CursorArgument(list), list.argumentPosition, before);
      if reply.ret == -1 then (Returned(-1), reply.candidates)
      else
        (Returned(Wrap32(reply.ret + Wrap32(list.bufferPosition - list.argumentPosition))),
         if TrimsCandidates(buffer, cursor) then TrimAll(reply.candidates) else reply.candidates)
  }

  /** Result offset: a rejected walk returns -1 and leaves the list alone;
      otherwise the dispatched completer's -1 is passed on, and any other
      in-token offset becomes a buffer offset by adding cursor minus the
      cursor's offset in its token (delimit always records the cursor as
      the buffer position), in Java's wrapping int arithmetic, which is
      exact when the sum fits in an int. */
  lemma ResultOffset(g: Grammar, run: Behaviour, parse: Tokenizer, buffer: string, cursor: int, before: seq<string>)
    requires 0 <= cursor <= |buffer| && TokenizerContract(parse, buffer, cursor)
    ensures var list := Delimit(buffer, cursor, parse);
      var sel := Select(g, run, list.arguments, list.cursorArgumentIndex);
      (sel == Rejected ==> CompleteSpec(g, run, parse, buffer, cursor, before) == (Returned(-1), before)) &&
      (CompleteSpec(g, run, parse, buffer, cursor, before).0 == Thrown <==> sel == OutOfBounds) &&
      (sel.Dispatch? ==>
        var ret := run(sel.completer, CursorArgument(list), list.argumentPosition, before).ret;
        CompleteSpec(g, run, parse, buffer, cursor, before).0 ==
          Returned(if ret == -1 then -1 else Wrap32(ret + cursor - list.argumentPosition)))
    ensures var list := Delimit(buffer, cursor, parse);
      var sel := Select(g, run, list.arguments, list.cursorArgumentIndex);
      sel.Dispatch? ==>
        var ret := run(sel.completer, CursorArgument(list), list.argumentPosition, before).ret;
        ret != -1 && -0x8000_0000 <= ret + cursor - list.argumentPosition < 0x8000_0000 ==>
          CompleteSpec(g, run, parse, buffer, cursor, before).0 == Returned(ret + cursor - list.argumentPosition)
  {
    var list := Delimit(buffer, cursor, parse);
    var sel := Select(g, run, list.arguments, list.cursorArgumentIndex);
    if sel.Dispatch? {
      var ret := run(sel.completer, CursorArgument(list), list.argumentPosition, before).ret;
      Wrap32Add(ret, cursor - list.argumentPosition);
      if -0x8000_0000 <= ret + cursor - list.argumentPosition < 0x8000_0000 {
        Wrap32Exact(ret + cursor - list.argumentPosition);
      }
    }
  }

  /** When the parser fails, the whole buffer is the command-name token
      under the cursor: the command-name completer is asked to complete it
      at the cursor, and its offset is returned unchanged. */
  lemma FallbackCompletesCommandName(g: Grammar, run: Behaviour, parse: Tokenizer, buffer: string, cursor: int, before: seq<string>)
    requires 0 <= cursor <= |buffer| && parse(buffer, cursor).None?
    ensures var reply := run(g.commandCompleter, Some(buffer), cursor, before);
      CompleteSpec(g, run, parse, buffer, cursor, before).0 == Returned(reply.ret)
  {
    var reply := run(g.commandCompleter, Some(buffer), cursor, before);
    Wrap32Exact(reply.ret);
  }

  /** Trimming: it happens only when the cursor is inside the buffer on a
      whitespace character; it keeps the number of candidates, turns each
      into a prefix of itself that removes only whitespace, and leaves no
      non-empty candidate ending in a delimiter. Otherwise the completer's
      candidates are left as they are. */
  lemma TrimmingShape(g: Grammar, run: Behaviour, parse: Tokenizer, buffer: string, cursor: int, before: seq<string>)
    requires 0 <= cursor <= |buffer| && TokenizerContract(parse, buffer, cursor)
    ensures TrimsCandidates(buffer, cursor) <==> cursor < |buffer| && IsWhitespace(buffer[cursor])
    ensures var list := Delimit(buffer, cursor, parse);
      var sel := Select(g, run, list.arguments, list.cursorArgumentIndex);
      var after := CompleteSpec(g, run, parse, buffer, cursor, before).1;
      sel.Dispatch? ==>
        var reply := run(sel.completer, CursorArgument(list), list.argumentPosition, before);
        (reply.ret == -1 || !TrimsCandidates(buffer, cursor) ==> after == reply.candidates) &&
        (reply.ret != -1 && TrimsCandidates(buffer, cursor) ==>
          |after| == |reply.candidates| &&
          forall i :: 0 <= i < |after| ==>
            |after[i]| <= |reply.candidates[i]| && after[i] == reply.candidates[i][..|after[i]|] &&
            (forall k :: |after[i]| <= k < |reply.candidates[i]| ==> IsWhitespace(reply.candidates[i][k])) &&
            (|after[i]| == 0 || !IsDelimiter(after[i], |after[i]| - 1)))
  {
    if cursor < |buffer| {
      DelimiterIsWhitespace(buffer, cursor);
    }
    var list := Delimit(buffer, cursor, parse);
    var sel := Select(g, run, list.arguments, list.cursorArgumentIndex);
    if sel.Dispatch? {
      var reply := run(sel.completer, CursorArgument(list), list.argumentPosition, before);
      var after := CompleteSpec(g, run, parse, buffer, cursor, before).1;
      if reply.ret != -1 && TrimsCandidates(buffer, cursor) {
        forall i | 0 <= i < |after|
          ensures |after[i]| == 0 || !IsDelimiter(after[i], |after[i]| - 1)
        {
          if |after[i]| > 0 {
            DelimiterIsWhitespace(after[i], |after[i]| - 1);
          }
        }
      }
    }
  }

  /** The constructor's loop over the annotated fields: fields.put(option,
      field), options.put(name), then options.put for every alias. */
  method ScanFields(decls: seq<FieldDecl>) returns (fieldMap: map<OptionSpec, FieldType>, optionMap: map<string, OptionRef>)
    ensures fieldMap == FieldTable(decls)
    ensures optionMap == DeclaredOptions(decls)
  {
    fieldMap, optionMap := map[], map[];
    var i := 0;
    while i < |decls|
      invariant 0 <= i <= |decls|
      invariant fieldMap == FieldTable(decls[..i])
      invariant optionMap == DeclaredOptions(decls[..i])
    {
      var field := decls[i];
      assert decls[..i + 1][..i] == decls[..i];
      if field.annotation.Some? {
        var option := field.annotation.value;
        fieldMap := fieldMap[option := field.fieldType];
        optionMap := PutAliasLoop(optionMap[option.name := Declared(option)], option);
      }
      i := i + 1;
    }
    assert decls[..i] == decls;
  }

  /** The constructor's inner loop: options.put(alias, option) for each
      alias in turn. */
  method PutAliasLoop(m: map<string, OptionRef>, option: OptionSpec) returns (r: map<string, OptionRef>)
    ensures r == PutAliases(m, option.aliases, Declared(option))
  {
    r := m;
    var j := 0;
    while j < |option.aliases|
      invariant 0 <= j <= |option.aliases|
      invariant r == PutAliases(m, option.aliases[..j], Declared(option))
    {
      assert option.aliases[..j + 1][..j] == option.aliases[..j];
      r := r[option.aliases[j] := Declared(option)];
      j := j + 1;
    }
    assert option.aliases[..j] == option.aliases;
  }

  /** The constructor's argsCompleters: the supplied list with each null
      replaced by NullCompleter, or [NullCompleter] when there is none. */
  method CollectCompleters(source: ArgumentSource) returns (argsList: seq<Completer>)
    ensures argsList == PositionalCompleters(source)
  {
    argsList := [];
    match source {
      case CompleterList(cs) =>
        var k := 0;
        while k < |cs|
          invariant 0 <= k <= |cs|
          invariant argsList == Substitute(cs[..k])
        {
          assert cs[..k + 1][..k] == cs[..k];
          argsList := argsList + [OrNull(cs[k])];
          k := k + 1;
        }
        assert cs[..k] == cs;
      case NoCompleterList =>
        argsList := argsList + [Null];
      case NotCompletable =>
        argsList := argsList + [Null];
    }
  }

  class ArgumentCompleter {
    const commandCompleter: Completer
    const optionsCompleter: Completer
    const argsCompleters: seq<Completer>
    const fields: map<OptionSpec, FieldType>
    const options: map<string, OptionRef>
    var strict: bool

    /** The completers and tables complete consults. */
    function State(): Grammar
    {
      Grammar(commandCompleter, optionsCompleter, argsCompleters, fields, options)
    }

    /** Builds the command-name completer over getNames(command), the
        option tables from the annotated fields (HELP put last), the
        options completer over every option key, and the positional
        completers. `help` is DefaultActionPreparator.HELP. */
    constructor (cmd: CommandFunction, command: string, help: OptionSpec)
      requires GetNames(command).Some?
      ensures commandCompleter == Strings(set n | n in GetNames(command).value)
      ensures fields == FieldTable(cmd.actionFields)
      ensures options == Options(cmd.actionFields, help)
      ensures optionsCompleter == Strings(options.Keys)
      ensures help.name in options && !TakesValue(fields, options[help.name])
      ensures argsCompleters == PositionalCompleters(cmd.arguments)
      ensures strict
    {
      var names := GetNames(command).value;
      commandCompleter := Strings(set n | n in names);
      var fieldMap, optionMap := ScanFields(cmd.actionFields);
      var argsList := CollectCompleters(cmd.arguments);
      optionMap := optionMap[help.name := Help(help)];
      fields := fieldMap;
      options := optionMap;
      optionsCompleter := Strings(optionMap.Keys);
      argsCompleters := argsList;
      strict := true;
    }

    /** setStrict: stores the flag; nothing else changes. */
    method SetStrict(strict: bool)
      modifies this`strict
      ensures this.strict == strict
    {
      this.strict := strict;
    }

    /** getStrict */
    method GetStrict() returns (s: bool)
      ensures s == strict
    {
      s := strict;
    }

    /** The grammar walk of complete: verifies every token before the
        cursor and picks the completer of the cursor's slot. */
    method SelectCompleter(list: ArgumentList, run: Behaviour) returns (sel: Selection)
      requires list.cursorArgumentIndex <= |list.arguments|
      ensures sel == Select(State(), run, list.arguments, list.cursorArgumentIndex)
    {
      var argIndex := list.cursorArgumentIndex;
      var args := list.arguments;
      ghost var goal := Select(State(), run, args, argIndex);
      var comp: Option<Selection> := None;
      var index := 0;
      // The first argument is the command name
      if index < argIndex {
        if !VerifyCompleter(run, commandCompleter, args[index]) {
          return Rejected;
        }
        index := index + 1;
      } else {
        comp := Some(Dispatch(CommandName, commandCompleter));
      }
      // Then the options
      if comp.None? {
        while index < argIndex && IsOptionToken(args[index])
          invariant 1 <= index <= argIndex + 1
          invariant comp.None? ==> index <= argIndex && OptionWalk(State(), run, args, argIndex, index) == goal
          invariant comp.Some? ==> index == argIndex + 1 && comp.value == goal
          decreases argIndex - index
        {
          if !VerifyCompleter(run, optionsCompleter, args[index]) {
            return Rejected;
          }
          if args[index] !in options {
            return Rejected;
          }
          var option := options[args[index]];
          if TakesValue(fields, option) {
            index := index + 1;
            if index == argIndex {
              comp := Some(Dispatch(OptionValue, Null));
            }
          }
          index := index + 1;
        }
        if comp.None? && index >= argIndex && index < |args| && IsOptionToken(args[index]) {
          comp := Some(Dispatch(OptionName, optionsCompleter));
        }
      }
      // Then the positional arguments
      if comp.None? {
        var indexArg := 0;
        while index < argIndex
          invariant index <= argIndex
          invariant PositionalWalk(State(), run, args, argIndex, index, indexArg) == goal
          decreases argIndex - index
        {
          if |argsCompleters| == 0 {
            return OutOfBounds;
          }
          var sub := Pick(argsCompleters, indexArg);
          if !VerifyCompleter(run, sub, args[index]) {
            return Rejected;
          }
          index := index + 1;
          indexArg := indexArg + 1;
        }
        if |argsCompleters| == 0 {
          return OutOfBounds;
        }
        comp := Some(Dispatch(Positional(indexArg), Pick(argsCompleters, indexArg)));
      }
      sel := comp.value;
    }

    /** complete: walk the grammar, dispatch the cursor's completer into
        the caller's list, translate its offset into the buffer and trim
        trailing delimiters from the candidates when the cursor rests on
        a delimiter inside the buffer. The strict flag is not consulted. */
    method Complete(buffer: string, cursor: int, candidates: CandidateList, parse: Tokenizer, run: Behaviour) returns (r: Outcome)
      requires 0 <= cursor <= |buffer|
      requires TokenizerContract(parse, buffer, cursor)
      modifies candidates
      ensures (r, candidates.items) == CompleteSpec(State(), run, parse, buffer, cursor, old(candidates.items))
    {
      var list := Delimit(buffer, cursor, parse);
      var argpos := list.argumentPosition;
      var sel := SelectCompleter(list, run);
      if sel.Rejected? {
        return Returned(-1);
      }
      if sel.OutOfBounds? {
        return Thrown;
      }
      var reply := run(sel.completer, CursorArgument(list), argpos, candidates.items);
      candidates.items := reply.candidates;
      if reply.ret == -1 {
        return Returned(-1);
      }
      var pos := Wrap32(reply.ret + Wrap32(list.bufferPosition - argpos));
      if cursor != |buffer| && IsDelimiter(buffer, cursor) {
        var i := 0;
        while i < |candidates.items|
          invariant 0 <= i <= |candidates.items| == |reply.candidates|
          invariant forall k :: 0 <= k < i ==> candidates.items[k] == TrimDelimiters(reply.candidates[k])
          invariant forall k :: i <= k < |candidates.items| ==> candidates.items[k] == reply.candidates[k]
        {
          var val := candidates.items[i];
          while |val| > 0 && IsDelimiter(val, |val| - 1)
            invariant TrimDelimiters(val) == TrimDelimiters(candidates.items[i])
            decreases |val|
          {
            val := val[..|val| - 1];
          }
          candidates.items := candidates.items[i := val];
          i := i + 1;
        }
        assert candidates.items == TrimAll(reply.candidates);
      }
      return Returned(pos);
    }
  }

  /** The strict flag is stored but never read: completing the same input
      with strict on and with strict off gives the same outcome and the same
      candidates, and repeating a call repeats its result. */
  method StrictFlagIgnored(ac: ArgumentCompleter, buffer: string, cursor: int, parse: Tokenizer, run: Behaviour, items: seq<string>)
    returns (strictOutcome: Outcome, strictItems: seq<string>, laxOutcome: Outcome, laxItems: seq<string>)
    requires 0 <= cursor <= |buffer| && TokenizerContract(parse, buffer, cursor)
    modifies ac`strict
    ensures strictOutcome == laxOutcome && strictItems == laxItems
  {
    var strictList := new CandidateList(items);
    ac.SetStrict(true);
    strictOutcome := ac.Complete(buffer, cursor, strictList, parse, run);
    var laxList := new CandidateList(items);
    ac.SetStrict(false);
    laxOutcome := ac.Complete(buffer, cursor, laxList, parse, run);
    strictItems, laxItems := strictList.items, laxList.items;
  }
}
