/**
 * ArgumentCompleter.ArgumentList, the result of delimiting a buffer, and
 * the delimit step that produces it. The Parser that tokenizes the buffer
 * is outside this model: its outcome is the abstract function `Tokenizer`.
 */
module Arguments {
  import opened Wrappers

  /** The tokens, the index of the token under the cursor, the cursor's
      offset inside that token, and the cursor's offset in the buffer. */
  datatype ArgumentList = ArgumentList(
    arguments: seq<string>,
    cursorArgumentIndex: int,
    argumentPosition: int,
    bufferPosition: int)

  /** getCursorArgument: the token under the cursor, None (null) when the
      index is outside the token list. */
  function CursorArgument(list: ArgumentList): Option<string>
  {
    if list.cursorArgumentIndex < 0 || list.cursorArgumentIndex >= |list.arguments| then None
    else Some(list.arguments[list.cursorArgumentIndex])
  }

  /** What the parser yields for (buffer, cursor): the pipe under the
      cursor and the parser's c2 (token index) and c3 (offset in token). */
  datatype Pipe = Pipe(tokens: seq<string>, argumentIndex: int, argumentPosition: int)

  /** The parser's outcome on (buffer, cursor); None when it throws. */
  type Tokenizer = (string, int) -> Option<Pipe>

  /** The parser may place the cursor at most one past the last token. */
  predicate TokenizerContract(parse: Tokenizer, buffer: string, cursor: int)
  {
    parse(buffer, cursor).Some? ==>
      parse(buffer, cursor).value.argumentIndex <= |parse(buffer, cursor).value.tokens|
  }

  /** delimit: the parser's result, or the whole buffer as one token when
      the parser throws. */
  function Delimit(buffer: string, cursor: int, parse: Tokenizer): (list: ArgumentList)
    ensures list.bufferPosition == cursor
    ensures TokenizerContract(parse, buffer, cursor) ==> list.cursorArgumentIndex <= |list.arguments|
    ensures parse(buffer, cursor).None? ==> list.arguments == [buffer] && list.cursorArgumentIndex == 0
  {
    match parse(buffer, cursor)
    case Some(p) => ArgumentList(p.tokens, p.argumentIndex, p.argumentPosition, cursor)
    case None => ArgumentList([buffer], 0, cursor, cursor)
  }
}
