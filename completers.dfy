/**
 * The completers the argument completer holds and how it consults them.
 * Completer implementations (StringsCompleter, NullCompleter and whatever
 * a command supplies) are outside this model: their behaviour is the
 * abstract function `Behaviour`.
 */
module Completers {
  import opened Wrappers
  import opened JavaInt

  /** A StringsCompleter over a fixed set of words, NullCompleter.INSTANCE,
      or a completer supplied by the command (known only by identity). */
  datatype Completer = Strings(words: set<string>) | Null | Supplied(id: nat)

  /** What Completer.complete returns, and the candidate list it leaves. */
  datatype Reply = Reply(ret: Int32, candidates: seq<string>)

  /** How completers behave: given the completer, the token (None for a
      null token), the cursor inside the token and the candidate list
      before the call, the value returned and the list after the call. */
  type Behaviour = (Completer, Option<string>, int, seq<string>) -> Reply

  /** verifyCompleter: the completer, asked to complete the whole argument
      into a fresh empty list, answers something other than -1 and offers
      at least one candidate. */
  predicate VerifyCompleter(run: Behaviour, completer: Completer, argument: string)
  {
    var reply := run(completer, Some(argument), |argument|, []);
    reply.ret != -1 && |reply.candidates| > 0
  }

  /** What the command offers for its positional arguments: it is not a
      CompletableFunction, its getCompleters() is null, or it returns a
      list whose entries may be null. */
  datatype ArgumentSource = NotCompletable | NoCompleterList | CompleterList(completers: seq<Option<Completer>>)

  /** A null entry of the supplied list stands for NullCompleter. */
  function OrNull(c: Option<Completer>): Completer
  {
    if c.Some? then c.value else Null
  }

  /** The entries of a supplied list, nulls replaced, in order. */
  function Substitute(cs: seq<Option<Completer>>): seq<Completer>
  {
    if |cs| == 0 then [] else Substitute(cs[..|cs| - 1]) + [OrNull(cs[|cs| - 1])]
  }

  /** The `argsCompleters` list the constructor builds. */
  function PositionalCompleters(source: ArgumentSource): seq<Completer>
  {
    match source
    case NotCompletable => [Null]
    case NoCompleterList => [Null]
    case CompleterList(cs) => Substitute(cs)
  }

  /** The list keeps every supplied entry in place, nulls read as
      NullCompleter, and without a list it is [NullCompleter]. */
  lemma {:induction false} SubstituteEntries(cs: seq<Option<Completer>>)
    ensures |Substitute(cs)| == |cs|
    ensures forall i :: 0 <= i < |cs| ==> Substitute(cs)[i] == OrNull(cs[i])
    decreases |cs|
  {
    if |cs| > 0 {
      SubstituteEntries(cs[..|cs| - 1]);
    }
  }

  /** The positional list is empty exactly when the command supplies an
      empty list. */
  lemma PositionalCompletersEmpty(source: ArgumentSource)
    ensures |PositionalCompleters(source)| == 0 <==> source == CompleterList([])
    ensures source.CompleterList? ==> |PositionalCompleters(source)| == |source.completers|
    ensures !source.CompleterList? ==> PositionalCompleters(source) == [Null]
  {
    if source.CompleterList? {
      SubstituteEntries(source.completers);
    }
  }
}
