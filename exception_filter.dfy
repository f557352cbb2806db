/**
 * The global exception filter: it turns anything thrown while handling a
 * request into a status, a message and a log level, and answers with the
 * body `{code, message, data: null}`.
 */
module ExceptionFilter {
  import opened Wrappers

  /** The `message` property of an object response: a list, a string, or anything else. */
  datatype MessageField = MessageList(items: seq<string>) | MessageText(text: string) | MessageOther

  /**
   * What an HTTP exception's `getResponse()` returns: a string, an object
   * (with its `message` property when it has one), or anything else (null).
   */
  datatype ExceptionResponse = ResponseText(text: string) | ResponseObject(message: Option<MessageField>) | ResponseOther

  /** What was thrown: an HTTP exception, another `Error`, or a value that is no `Error` at all. */
  datatype Exception =
    | HttpException(status: int, response: ExceptionResponse, message: string)
    | PlainError(message: string, stack: Option<string>)
    | NonError

  /**
   * The status, message and stack the filter settles on. The message is
   * `None` when it is JavaScript's `undefined`, which happens only for an
   * empty message list.
   */
  datatype Outcome = Outcome(status: int, message: Option<string>, stack: Option<string>)

  /** How the filter logs a response. */
  datatype LogLevel = LogError | LogWarn | NoLog

  /** The response body; `data` is `None` for JSON null. */
  datatype ErrorBody = ErrorBody(code: int, message: string, data: Option<string>)

  /** Everything the filter decides for one exception. */
  datatype Handled = Handled(status: int, level: LogLevel, body: ErrorBody)

  /** The status and message used when nothing better is known. */
  const InternalServerError: int := 500
  const DefaultMessage: string := "Internal server error"
  /** `String(undefined)`. */
  const UndefinedText: string := "undefined"

  /** The message of an HTTP exception, from its response when the response carries one. */
  function HttpMessage(response: ExceptionResponse, ownMessage: string): (m: Option<string>)
    ensures m.None? <==> response == ResponseObject(Some(MessageList([])))
  {
    match response
    case ResponseText(text) => Some(text)
    case ResponseObject(Some(field)) =>
      (match field
       case MessageList(items) => if |items| > 0 then Some(items[0]) else None
       case MessageText(text) => Some(text)
       case MessageOther => Some(ownMessage))
    case ResponseObject(None) => Some(ownMessage)
    case ResponseOther => Some(ownMessage)
  }

  /**
   * The status and message derivation of `catch`: an HTTP exception keeps
   * its status and takes its message from its response; any other `Error`
   * gives 500 with its message and stack; anything else gives 500 and the
   * default message.
   */
  function Derive(e: Exception): (o: Outcome)
    ensures o.status == (if e.HttpException? then e.status else InternalServerError)
    ensures o.stack == (if e.PlainError? then e.stack else None)
    ensures o.message.None? <==> e.HttpException? && e.response == ResponseObject(Some(MessageList([])))
  {
    match e
    case HttpException(s, response, own) => Outcome(s, HttpMessage(response, own), None)
    case PlainError(m, st) => Outcome(InternalServerError, Some(m), st)
    case NonError => Outcome(InternalServerError, Some(DefaultMessage), None)
  }

  /** The log level for a status: error from 500 up, warning from 400 to 499, none below. */
  function LogLevelFor(status: int): (level: LogLevel)
    ensures level == LogError <==> status >= 500
    ensures level == LogWarn <==> 400 <= status < 500
    ensures level == NoLog <==> status < 400
  {
    if status >= 500 then LogError
    else if status >= 400 then LogWarn
    else NoLog
  }

  /** The body's message: the message itself, or `"undefined"` in its place. */
  function BodyMessage(message: Option<string>): (text: string)
    ensures message.Some? ==> text == message.value
  {
    match message
    case Some(m) => m
    case None => UndefinedText
  }

  /** `catch(exception)` without the logging and the response object. */
  function Catch(e: Exception): (h: Handled)
    ensures h.status == Derive(e).status
    ensures h.body.code == h.status && h.body.data.None?
    ensures h.body.message == BodyMessage(Derive(e).message)
    ensures h.level == LogLevelFor(h.status)
  {
    var o := Derive(e);
    Handled(o.status, LogLevelFor(o.status), ErrorBody(o.status, BodyMessage(o.message), None))
  }
}

/** What the exception filter promises for each kind of exception. */
module ExceptionFilterProperties {
  import opened Wrappers
  import opened ExceptionFilter
  import Books

  /** Something that is not an `Error` gives 500, the default message and an error log. */
  lemma NonErrorIsInternal()
    ensures Catch(NonError) == Handled(500, LogError, ErrorBody(500, "Internal server error", None))
  {
  }

  /** A plain `Error` gives 500 with its own message, keeps its stack, and is logged as an error. */
  lemma PlainErrorKeepsMessage(message: string, stack: Option<string>)
    ensures Derive(PlainError(message, stack)) == Outcome(500, Some(message), stack)
    ensures Catch(PlainError(message, stack)) == Handled(500, LogError, ErrorBody(500, message, None))
  {
  }

  /** An HTTP exception keeps its status, and a string response is the message verbatim. */
  lemma TextResponseIsMessage(status: int, text: string, own: string)
    ensures Catch(HttpException(status, ResponseText(text), own)).body == ErrorBody(status, text, None)
  {
  }

  /**
   * An object response with a `message`: the first element of a list, the
   * string itself, or the exception's own message for anything else.
   */
  lemma ObjectResponseMessage(status: int, field: MessageField, own: string)
    ensures var m := Derive(HttpException(status, ResponseObject(Some(field)), own)).message;
      && (field.MessageList? && |field.items| > 0 ==> m == Some(field.items[0]))
      && (field.MessageText? ==> m == Some(field.text))
      && (field.MessageOther? ==> m == Some(own))
  {
  }

  /** A response object without `message`, or a response that is no object, gives the exception's own message. */
  lemma NoResponseMessageUsesOwn(status: int, own: string)
    ensures Derive(HttpException(status, ResponseObject(None), own)).message == Some(own)
    ensures Derive(HttpException(status, ResponseOther, own)).message == Some(own)
  {
  }

  /** An empty message list leaves the message undefined, and the body says `"undefined"`. */
  lemma EmptyMessageListGivesUndefined(status: int, own: string)
    ensures Catch(HttpException(status, ResponseObject(Some(MessageList([]))), own)).body.message == "undefined"
  {
  }

  /**
   * The body's message is never made up: it is the default message, a
   * message carried by the exception or its response, or `"undefined"` for
   * an empty message list.
   */
  lemma BodyMessageComesFromException(e: Exception)
    ensures var text := Catch(e).body.message;
      match e
      case NonError => text == DefaultMessage
      case PlainError(m, _) => text == m
      case HttpException(_, response, own) =>
        || text == own
        || (response.ResponseText? && text == response.text)
        || (response.ResponseObject? && response.message.Some? && response.message.value.MessageText? &&
            text == response.message.value.text)
        || (response.ResponseObject? && response.message.Some? && response.message.value.MessageList? &&
            (if |response.message.value.items| > 0 then text == response.message.value.items[0]
             else text == UndefinedText))
  {
  }

  /** A higher status never gets a milder log level. */
  lemma LogLevelMonotone(a: int, b: int)
    requires a <= b
    ensures LogLevelFor(a) == LogError ==> LogLevelFor(b) == LogError
    ensures LogLevelFor(a) == LogWarn ==> LogLevelFor(b) != NoLog
  {
  }

  /**
   * The bad request the book service raises for a missing book reaches the
   * client as `{code: 400, message: "书籍不存在", data: null}` and is logged
   * as a warning.
   */
  lemma BookNotFoundResponse(own: string)
    ensures Catch(HttpException(400, ResponseObject(Some(MessageText(Books.NotFoundMessage))), own)) ==
      Handled(400, LogWarn, ErrorBody(400, Books.NotFoundMessage, None))
  {
  }

  /** A validation failure listing several messages reports the first one. */
  lemma ValidationFailureReportsFirst(first: string, rest: seq<string>, own: string)
    ensures Catch(HttpException(400, ResponseObject(Some(MessageList([first] + rest))), own)).body ==
      ErrorBody(400, first, None)
  {
  }
}
