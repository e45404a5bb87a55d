# ArgumentCompleter — a Dafny model of Karaf's argument-completion engine

This project models `ArgumentCompleter`, the console completer that Apache Karaf builds for a
shell command. The command's name, its `@Option` fields and the completers it supplies for
positional arguments are all known when the completer is built. `complete(buffer, cursor,
candidates)` then takes the buffer and the cursor position and does four things:

- It delimits the buffer into tokens.
- It walks the grammar over the tokens before the cursor: the command name, then options (a
  value-taking option also consumes the next token), then positional arguments. Every token
  must verify against the completer of its own slot, or the result is `-1`.
- It dispatches the completer of the cursor's slot and translates that completer's in-token
  offset into a buffer offset.
- When the cursor rests on a delimiter inside the buffer, it trims trailing delimiters from
  every candidate in place.

Modules:

- `JavaInt` (`java_int.dfy`): Java's 32-bit `int` and its wrap-around.
- `Delimiters` (`delimiters.dfy`): `isEscaped`, `isDelimiterChar` and `isDelimiter`, plus the
  trimming loop as the function `TrimDelimiters`.
- `CommandNames` (`command_names.dfy`): `getNames`, with Java's `String.split(":")` written
  out. Trailing empty pieces are dropped. When nothing matches, the whole string is the only
  piece.
- `OptionTable` (`option_table.dfy`): the `fields` and `options` maps the constructor fills,
  written as folds over the annotated fields in reflection order. Later puts win. HELP is put
  last.
- `Completers` (`completers.dfy`): the completers the engine holds, `verifyCompleter`, and
  the list of positional completers.
- `Arguments` (`arguments.dfy`): the immutable `ArgumentList` value, `getCursorArgument` and
  `delimit`.
- `Grammar` (`grammar.dfy`): the grammar walk as the specification function `Select`, and
  the lemmas that characterise each slot.
- `Engine` (`argument_completer.dfy`): the class `ArgumentCompleter` (constructor,
  `setStrict`/`getStrict`, the walk `SelectCompleter` and `Complete`), the caller's mutable
  `CandidateList`, and `CompleteSpec`. `CompleteSpec` is the function `Complete` is proved
  against.

Foreign code is passed in as parameters:

- The behaviour of completers is the function `Behaviour`. It gets the completer, the token
  (possibly null), the in-token cursor and the candidate list before the call. It gives back
  the returned value and the list after the call. Nothing is assumed about prefix matching.
- The Parser's outcome is the function `Tokenizer`. `None` means the parser threw.

Behaviour of the code that the model keeps as written:

- The `strict` flag is stored and exposed, but `complete` never reads it.
  `Engine.StrictFlagIgnored` shows that strict and lax calls give identical results.
- If the command supplies an empty positional list, `argsCompleters` is empty. In that case
  `argsCompleters.get(size()-1)` throws `IndexOutOfBoundsException`. It does not fall back to
  the pass-through completer. The model's outcome is `Thrown`.
- HELP is put into the option table unconditionally. It overwrites any declared option or
  alias with the same name.
- `isEscaped` tests the character at the position itself, not the one before it. So a
  delimiter is exactly a whitespace character, and the escape parity cannot hide one.
- An option takes a value only when its field's type is neither `boolean` nor `Boolean`. HELP
  annotates no field, so it never takes a value. This holds even when a declared option has
  HELP's name and aliases, because HELP is a separate object (`OptionTable.OptionRef`).
- The result offset `ret + (bufferPosition - argpos)` is computed in Java's 32-bit `int`
  arithmetic, which wraps around (module `JavaInt`).

## Model

| member | source | states |
|---|---|---|
| `JavaInt.Wrap32` | shell/console/src/main/java/org/apache/karaf/shell/console/completer/ArgumentCompleter.java:168 | the int Java's addition or subtraction yields: a value in the 32-bit range that differs from the exact result by a multiple of 2^32 |
| `JavaInt.Wrap32Exact` | shell/console/src/main/java/org/apache/karaf/shell/console/completer/ArgumentCompleter.java:168 | without overflow the Java result is the exact one |
| `JavaInt.Wrap32Add` | shell/console/src/main/java/org/apache/karaf/shell/console/completer/ArgumentCompleter.java:168 | wrapping the inner subtraction `bufferPosition - argpos` does not change the wrapped sum |
| `Delimiters.IsEscaped` | shell/console/src/main/java/org/apache/karaf/shell/console/completer/ArgumentCompleter.java:226-228 | definition: pos > 0, the character at pos is a backslash, and the character before it is not escaped |
| `Delimiters.IsDelimiterChar` | shell/console/src/main/java/org/apache/karaf/shell/console/completer/ArgumentCompleter.java:234-236 | definition: the character at pos is whitespace (`IsWhitespace`, Java's Character.isWhitespace) |
| `Delimiters.IsDelimiter` | shell/console/src/main/java/org/apache/karaf/shell/console/completer/ArgumentCompleter.java:222-224 | definition: not escaped and a delimiter character |
| `CommandNames.Segments` | shell/console/src/main/java/org/apache/karaf/shell/console/completer/ArgumentCompleter.java:87 | definition: the pieces between colons, empty ones included |
| `CommandNames.JavaSplit` | shell/console/src/main/java/org/apache/karaf/shell/console/completer/ArgumentCompleter.java:87 | definition: command.split(":"): the whole string when it has no colon, otherwise the pieces without the trailing empty ones |
| `CommandNames.GetNames` | shell/console/src/main/java/org/apache/karaf/shell/console/completer/ArgumentCompleter.java:86-89 | definition: [command, s[1]] of the split, or None where s[1] is out of bounds |
| `OptionTable.FieldTable` | shell/console/src/main/java/org/apache/karaf/shell/console/completer/ArgumentCompleter.java:53-67 | definition: the fields.put of each annotated field in visiting order |
| `OptionTable.DeclaredOptions` | shell/console/src/main/java/org/apache/karaf/shell/console/completer/ArgumentCompleter.java:53-67 | definition: the options.put of each annotated field's name and then its aliases, in visiting order |
| `OptionTable.Options` | shell/console/src/main/java/org/apache/karaf/shell/console/completer/ArgumentCompleter.java:68 | definition: the declared table with HELP put last under its name |
| `OptionTable.TakesValue` | shell/console/src/main/java/org/apache/karaf/shell/console/completer/ArgumentCompleter.java:136-137 | definition: fields.get(option) is a field whose type is neither boolean nor Boolean; HELP is never a key of fields |
| `Completers.VerifyCompleter` | shell/console/src/main/java/org/apache/karaf/shell/console/completer/ArgumentCompleter.java:196-199 | definition: the completer, asked for the whole argument at its end into an empty list, returns something other than -1 and leaves a non-empty list |
| `Completers.PositionalCompleters` | shell/console/src/main/java/org/apache/karaf/shell/console/completer/ArgumentCompleter.java:71-83 | definition: the supplied list with nulls replaced by NullCompleter, or [NullCompleter] when there is no list |
| `Arguments.CursorArgument` | shell/console/src/main/java/org/apache/karaf/shell/console/completer/ArgumentCompleter.java:273-280 | definition: the token at the cursor index, or None (null) when the index is negative or past the last token |
| `Grammar.Select` | shell/console/src/main/java/org/apache/karaf/shell/console/completer/ArgumentCompleter.java:113-125 | definition: the command-name step, then the option loop from token 1 |
| `Grammar.OptionWalk` | shell/console/src/main/java/org/apache/karaf/shell/console/completer/ArgumentCompleter.java:127-147 | definition: the option loop and the check after it, then the positional loop from where the options end |
| `Grammar.PositionalWalk` | shell/console/src/main/java/org/apache/karaf/shell/console/completer/ArgumentCompleter.java:149-160 | definition: the positional loop and the final pick, OutOfBounds where get(size()-1) throws |
| `Engine.TrimsCandidates` | shell/console/src/main/java/org/apache/karaf/shell/console/completer/ArgumentCompleter.java:180 | definition: the cursor is not at the end of the buffer and is on a delimiter |
| `Engine.CompleteSpec` | shell/console/src/main/java/org/apache/karaf/shell/console/completer/ArgumentCompleter.java:107-194 | definition: delimit, walk, then -1, a throw, or the dispatched completer's reply with its offset translated and, when trimming applies, every candidate trimmed |
| `Delimiters.EscapedOnlyAtBackslash` | shell/console/src/main/java/org/apache/karaf/shell/console/completer/ArgumentCompleter.java:226-228 | position 0 is never escaped; an escaped position holds a backslash |
| `Delimiters.EscapeParity` | shell/console/src/main/java/org/apache/karaf/shell/console/completer/ArgumentCompleter.java:226-228 | a position is escaped iff it ends an odd run of backslashes (position 0 not counted); proved by induction on the backward recursion, whose measure is the position |
| `Delimiters.DelimiterIsWhitespace` | shell/console/src/main/java/org/apache/karaf/shell/console/completer/ArgumentCompleter.java:222-236 | isDelimiter(b, p) holds exactly when b[p] is whitespace |
| `Delimiters.TrimDelimiters` | shell/console/src/main/java/org/apache/karaf/shell/console/completer/ArgumentCompleter.java:182-187 | the trimmed candidate is a prefix of the original, only whitespace was removed, and it does not end in whitespace |
| `Delimiters.TrimDelimitersUnique` | shell/console/src/main/java/org/apache/karaf/shell/console/completer/ArgumentCompleter.java:182-187 | any prefix with those three properties is the trimmed candidate |
| `CommandNames.StripTrailingEmpty` | shell/console/src/main/java/org/apache/karaf/shell/console/completer/ArgumentCompleter.java:87 | the result is a prefix of the pieces, every piece dropped is empty, and the result is empty or ends in a non-empty piece |
| `CommandNames.JoinSegments` | shell/console/src/main/java/org/apache/karaf/shell/console/completer/ArgumentCompleter.java:87 | the colon-separated pieces hold no colon and join back into the command |
| `CommandNames.GetNamesShortForm` | shell/console/src/main/java/org/apache/karaf/shell/console/completer/ArgumentCompleter.java:86-89 | for command = a:b…: getNames succeeds iff b or some later piece is non-empty, and then yields [command, b], only the second piece |
| `CommandNames.GetNamesNeedsColon` | shell/console/src/main/java/org/apache/karaf/shell/console/completer/ArgumentCompleter.java:86-89 | without a colon, s[1] is out of bounds (None) |
| `OptionTable.PutAliasesEntries` | shell/console/src/main/java/org/apache/karaf/shell/console/completer/ArgumentCompleter.java:59-64 | the alias loop maps every alias to the option and keeps every other key |
| `OptionTable.RegisterEntries` | shell/console/src/main/java/org/apache/karaf/shell/console/completer/ArgumentCompleter.java:58-64 | registering an option maps its name and aliases to it and keeps every other key |
| `OptionTable.DeclaredOptionsKeys` | shell/console/src/main/java/org/apache/karaf/shell/console/completer/ArgumentCompleter.java:53-67 | the declared keys are exactly the names and aliases of annotated fields |
| `OptionTable.DeclaredOptionsLastWins` | shell/console/src/main/java/org/apache/karaf/shell/console/completer/ArgumentCompleter.java:53-67 | a key maps to the option of the last field that registers it (HashMap put overwrites) |
| `OptionTable.OptionsEntries` | shell/console/src/main/java/org/apache/karaf/shell/console/completer/ArgumentCompleter.java:68 | HELP's name maps to HELP whatever was declared under it; the other keys are the declared names and aliases, each mapped by the last field that registers it |
| `OptionTable.FieldTableKeys` | shell/console/src/main/java/org/apache/karaf/shell/console/completer/ArgumentCompleter.java:57 | the fields map is keyed by exactly the declared annotations |
| `OptionTable.FieldTableLastWins` | shell/console/src/main/java/org/apache/karaf/shell/console/completer/ArgumentCompleter.java:57 | each annotation maps to the type of the last field carrying it |
| `OptionTable.HelpTakesNoValue` | shell/console/src/main/java/org/apache/karaf/shell/console/completer/ArgumentCompleter.java:136-137 | in the finished tables HELP's name is a key and the option under it never takes a value, whatever the declared fields are |
| `OptionTable.DeclaredTakesValue` | shell/console/src/main/java/org/apache/karaf/shell/console/completer/ArgumentCompleter.java:136-137 | any other key takes a value iff the last field annotated with the option that last registered the key has a type other than boolean and Boolean |
| `OptionTable.UnannotatedTakesNoValue` | shell/console/src/main/java/org/apache/karaf/shell/console/completer/ArgumentCompleter.java:136-137 | a declared option that no field carries has no entry in `fields` and so takes no value |
| `Completers.SubstituteEntries` | shell/console/src/main/java/org/apache/karaf/shell/console/completer/ArgumentCompleter.java:75-77 | the supplied list keeps its length and order, and a null entry becomes NullCompleter |
| `Completers.PositionalCompletersEmpty` | shell/console/src/main/java/org/apache/karaf/shell/console/completer/ArgumentCompleter.java:71-83 | argsCompleters is empty iff the command supplies an empty list; without a list it is [NullCompleter] |
| `Arguments.Delimit` | shell/console/src/main/java/org/apache/karaf/shell/console/completer/ArgumentCompleter.java:201-210 | the buffer position is always the cursor; the cursor token index is at most the token count; when the parser throws, the whole buffer is the only token and the cursor is on token 0 |
| `Grammar.CommandSlot` | shell/console/src/main/java/org/apache/karaf/shell/console/completer/ArgumentCompleter.java:116-125 | with the cursor on token 0 the command-name completer is dispatched, whatever the tokens and completers; past it, a command name that fails verification gives -1 |
| `Grammar.OptionRunWalk` | shell/console/src/main/java/org/apache/karaf/shell/console/completer/ArgumentCompleter.java:128-143 | the option loop passes over a run of accepted options (and their values) to where the run ends |
| `Grammar.BadOptionRejects` | shell/console/src/main/java/org/apache/karaf/shell/console/completer/ArgumentCompleter.java:128-135 | a '-' token reached before the cursor that fails the options completer or is not an exact key gives -1 |
| `Grammar.OptionWalkValue` | shell/console/src/main/java/org/apache/karaf/shell/console/completer/ArgumentCompleter.java:136-142 | from any start, the loop dispatches the value slot iff the options run to a value-taking option just before the cursor; the completer is NullCompleter |
| `Grammar.OptionWalkName` | shell/console/src/main/java/org/apache/karaf/shell/console/completer/ArgumentCompleter.java:144-146 | from any start, the options completer is dispatched iff the options run exactly to the cursor and the cursor token starts with '-' |
| `Grammar.PositionalNotValue` | shell/console/src/main/java/org/apache/karaf/shell/console/completer/ArgumentCompleter.java:149-160 | the positional loop only ever dispatches a positional slot |
| `Grammar.PositionalWalkClosedForm` | shell/console/src/main/java/org/apache/karaf/shell/console/completer/ArgumentCompleter.java:150-159 | the positional loop throws on an empty list; otherwise it gives -1 unless every token before the cursor verifies against argsCompleters[min(k, size-1)] for its position k, and then dispatches that completer for the cursor's position |
| `Grammar.OptionWalkPositional` | shell/console/src/main/java/org/apache/karaf/shell/console/completer/ArgumentCompleter.java:127-160 | every positional dispatch or throw comes from the positional loop started where the run of options ends |
| `Grammar.ValueSlot` | shell/console/src/main/java/org/apache/karaf/shell/console/completer/ArgumentCompleter.java:136-142 | the whole walk dispatches NullCompleter for the value slot iff the command verifies and the options run to a value-taking option just before the cursor |
| `Grammar.OptionNameSlot` | shell/console/src/main/java/org/apache/karaf/shell/console/completer/ArgumentCompleter.java:144-146 | the whole walk dispatches the options completer iff the command verifies, the options run to the cursor and the cursor token starts with '-' |
| `Grammar.PositionalSlot` | shell/console/src/main/java/org/apache/karaf/shell/console/completer/ArgumentCompleter.java:149-160 | once the options end at token p, the walk throws on an empty list, otherwise gives -1 unless all positional tokens verify, otherwise dispatches argsCompleters[min(argIndex-p, size-1)] |
| `Grammar.PositionalSlotOnlyAfterOptions` | shell/console/src/main/java/org/apache/karaf/shell/console/completer/ArgumentCompleter.java:116-160 | a positional dispatch or throw needs a verified command name and a run of options that ends before the positional tokens |
| `Grammar.OutOfBoundsOnlyWhenEmpty` | shell/console/src/main/java/org/apache/karaf/shell/console/completer/ArgumentCompleter.java:152-159 | the walk throws only when argsCompleters is empty |
| `Grammar.OptionRunFrame` | shell/console/src/main/java/org/apache/karaf/shell/console/completer/ArgumentCompleter.java:128-143 | a run of options reads only its own tokens |
| `Grammar.OptionWalkFrame` | shell/console/src/main/java/org/apache/karaf/shell/console/completer/ArgumentCompleter.java:127-160 | the walk from token i reads no token before i |
| `Grammar.PositionalWalkFrame` | shell/console/src/main/java/org/apache/karaf/shell/console/completer/ArgumentCompleter.java:149-160 | the positional loop from token i reads no token before i |
| `Grammar.ValueTokenNeverVerified` | shell/console/src/main/java/org/apache/karaf/shell/console/completer/ArgumentCompleter.java:136-142 | the value token after a value-taking option before the cursor may be replaced by anything without changing the outcome |
| `Engine.ResultOffset` | shell/console/src/main/java/org/apache/karaf/shell/console/completer/ArgumentCompleter.java:162-168 | a rejected walk returns -1 and leaves the list alone; a throw happens iff the walk throws; otherwise the completer's -1 is passed on, and any other offset ret becomes ret + cursor - argumentPosition wrapped to a 32-bit int, which is exactly that sum when it fits in an int |
| `Engine.FallbackCompletesCommandName` | shell/console/src/main/java/org/apache/karaf/shell/console/completer/ArgumentCompleter.java:207-209 | when the parser throws, the command-name completer completes the whole buffer at the cursor and its offset is returned unchanged |
| `Engine.TrimmingShape` | shell/console/src/main/java/org/apache/karaf/shell/console/completer/ArgumentCompleter.java:180-191 | trimming happens iff the cursor is inside the buffer on whitespace; it keeps the candidate count, makes each candidate a prefix of its original that drops only whitespace, and leaves no non-empty candidate ending in a delimiter; otherwise the candidates are untouched |
| `Engine.ScanFields` | shell/console/src/main/java/org/apache/karaf/shell/console/completer/ArgumentCompleter.java:53-67 | the loop over the fields yields exactly the fields map and the options map (before HELP) that the folds `FieldTable` and `DeclaredOptions` define |
| `Engine.PutAliasLoop` | shell/console/src/main/java/org/apache/karaf/shell/console/completer/ArgumentCompleter.java:59-64 | the alias loop yields the map with every alias put in order (`PutAliases`) |
| `Engine.CollectCompleters` | shell/console/src/main/java/org/apache/karaf/shell/console/completer/ArgumentCompleter.java:71-83 | the loop builds exactly `PositionalCompleters`: the supplied list with nulls replaced, or [NullCompleter] |
| `Engine.ArgumentCompleter.constructor` | shell/console/src/main/java/org/apache/karaf/shell/console/completer/ArgumentCompleter.java:48-84 | the command completer offers getNames(command); fields and options are the folded tables with HELP last; the options completer offers every key; HELP's name is a key whose option takes no value; argsCompleters is the supplied list with nulls replaced, or [NullCompleter]; strict starts true |
| `Engine.ArgumentCompleter.SetStrict` | shell/console/src/main/java/org/apache/karaf/shell/console/completer/ArgumentCompleter.java:95-97 | stores the flag and changes nothing else |
| `Engine.ArgumentCompleter.GetStrict` | shell/console/src/main/java/org/apache/karaf/shell/console/completer/ArgumentCompleter.java:103-105 | returns the flag |
| `Engine.ArgumentCompleter.SelectCompleter` | shell/console/src/main/java/org/apache/karaf/shell/console/completer/ArgumentCompleter.java:113-160 | the command check and the loops over index/indexArg compute exactly the walk `Select`: the same -1 rejections, the same throw and the same dispatched completer |
| `Engine.ArgumentCompleter.Complete` | shell/console/src/main/java/org/apache/karaf/shell/console/completer/ArgumentCompleter.java:107-194 | the outcome and the caller's candidate list afterwards are those of `CompleteSpec`; the strict flag does not occur in it |
| `Engine.StrictFlagIgnored` | shell/console/src/main/java/org/apache/karaf/shell/console/completer/ArgumentCompleter.java:95-105 | complete with strict on and with strict off gives the same outcome and candidates |

## Left out

- The Parser used by `delimit` (lines 202-206) is not part of this model. Its outcome is
  the parameter `Tokenizer`, and `Complete` assumes of it that the cursor token index is at
  most the number of tokens (`TokenizerContract`).
- Reflection over the action class and its superclasses (lines 53-56) is not modelled. The
  fields are given as a sequence in the order the loop visits them, each with its optional
  `@Option` annotation and its declared type.
- Equality of declared annotations is modelled as equality of name and aliases. The
  annotation's other members, such as its description, are not modelled. HELP is kept apart
  from every declared annotation (`OptionRef.Help`).
- `StringsCompleter`, `NullCompleter`, the command-supplied completers, `CompletableFunction`,
  `AbstractCommand` and `DefaultActionPreparator.HELP` are foreign code and are not part of
  this model. Completers are identified by a datatype, and what they do is the parameter
  `Behaviour`. So completers are modelled as deterministic: the same arguments give the same
  reply. HELP is a constructor parameter whose name is unconstrained.
- `Character.isWhitespace` uses the current Unicode table. U+180E is not whitespace in it,
  although older JDKs treated it as whitespace.
- `Engine.ArgumentCompleter.constructor` requires `GetNames(command).Some?`. When `getNames`
  throws, the Java constructor builds no object.
- `Engine.ArgumentCompleter.Complete` requires `0 <= cursor <= |buffer|`. Outside that range,
  `isDelimiter(buffer, cursor)` would throw; callers always pass a cursor inside the buffer.
- The unused setters of `ArgumentList` (lines 265-300) are left out. `ArgumentList` is an
  immutable datatype.
- The `function` field (line 43) is kept only through the fields and completers it
  contributes.
- Exceptions thrown from inside foreign completers are not modelled.
- Concurrency is not modelled.
- Strings are sequences of Unicode characters, while Java's are sequences of UTF-16 units. The
  two agree within the Basic Multilingual Plane. A supplementary character, such as U+1F600,
  has length 1 here and 2 in Java, and that changes the cursor, `argumentPosition`,
  `argument.length()` in `verifyCompleter` and the returned offset. Lone surrogates cannot
  be represented.
- Only the result offset uses 32-bit arithmetic. The cursor, token indexes and lengths are
  unbounded integers; they stay within Java's int range for any buffer Java can hold.
- `itests/src/test/java/org/apache/karaf/itests/DiagnosticTest.java` is not modelled. It
  drives a live shell and a JMX connection, and holds no completion logic.
