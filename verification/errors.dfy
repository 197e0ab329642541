/** The parser's error taxonomy and its conversions (src/errors.rs).
    The payloads of `IO` and `Utf8` are foreign library errors; they are the
    opaque type parameters `Io` and `Utf8Err`, and what the library does with
    them (its own `description()` and `Display`) is passed in as a function. */
module Errors {
  import opened Wrappers

  /** The eight error kinds. */
  datatype Error<Io, Utf8Err> =
    | Unterminated
    | IO(io: Io)
    | Unexpected(lexeme: string)
    | Utf8(utf8: Utf8Err)
    | Escape(escape: string)
    | MoreLexemes
    | Unmatched(terminator: char)
    | AdditionalData

  /** The underlying error that `cause()` hands out: a borrowed `io::Error`
      or `Utf8Error`. */
  datatype Underlying<Io, Utf8Err> = IoCause(io: Io) | Utf8Cause(utf8: Utf8Err)

  /** True of the two variants that wrap a foreign error. */
  predicate Wraps<Io, Utf8Err>(e: Error<Io, Utf8Err>) {
    e.IO? || e.Utf8?
  }

  /** `Error::cause`: the wrapped foreign error, if there is one. */
  function Cause<Io, Utf8Err>(e: Error<Io, Utf8Err>): (r: Option<Underlying<Io, Utf8Err>>)
    ensures r.Some? <==> Wraps(e)
    ensures e.IO? ==> r == Some(IoCause(e.io))
    ensures e.Utf8? ==> r == Some(Utf8Cause(e.utf8))
  {
    match e
    case Unterminated => None
    case IO(x) => Some(IoCause(x))
    case Utf8(x) => Some(Utf8Cause(x))
    case _ => None
  }

  /** `Error::description`: a fixed text per kind, except that the two
      wrapping kinds ask their payload. */
  function Description<Io, Utf8Err>(e: Error<Io, Utf8Err>,
                                    ioDescription: Io -> string,
                                    utf8Description: Utf8Err -> string): (r: string)
    ensures e.IO? ==> r == ioDescription(e.io)
    ensures e.Utf8? ==> r == utf8Description(e.utf8)
    ensures !Wraps(e) ==> |r| > 0
  {
    match e
    case Unterminated => "unterminated string"
    case IO(x) => ioDescription(x)
    case Unexpected(_) => "unexpected lexeme"
    case Utf8(x) => utf8Description(x)
    case Escape(_) => "malformed escape"
    case MoreLexemes => "more lexemes expected"
    case Unmatched(_) => "unmatched container terminator"
    case AdditionalData => "additional data"
  }

  /** Position of the variant in the declaration, used to name a kind. */
  function Kind<Io, Utf8Err>(e: Error<Io, Utf8Err>): nat {
    match e
    case Unterminated => 0
    case IO(_) => 1
    case Unexpected(_) => 2
    case Utf8(_) => 3
    case Escape(_) => 4
    case MoreLexemes => 5
    case Unmatched(_) => 6
    case AdditionalData => 7
  }

  /** The description consults the payload exactly when `cause()` has one:
      for every other kind it does not depend on the foreign library. */
  lemma DescriptionNeedsPayloadOnlyWithCause<Io, Utf8Err>(
    e: Error<Io, Utf8Err>,
    io1: Io -> string, utf1: Utf8Err -> string,
    io2: Io -> string, utf2: Utf8Err -> string)
    requires Cause(e).None?
    ensures Description(e, io1, utf1) == Description(e, io2, utf2)
  {
  }

  /** Each non-wrapping kind has one fixed text, whatever its own payload
      (lexeme, escape, terminator), and no two such kinds share a text. */
  lemma DescriptionIdentifiesKind<Io, Utf8Err>(
    e1: Error<Io, Utf8Err>, e2: Error<Io, Utf8Err>,
    ioDescription: Io -> string, utf8Description: Utf8Err -> string)
    requires !Wraps(e1) && !Wraps(e2)
    ensures Description(e1, ioDescription, utf8Description) == Description(e2, ioDescription, utf8Description)
            <==> Kind(e1) == Kind(e2)
  {
  }

  /** `From<io::Error> for Error`. */
  function FromIo<Io, Utf8Err>(x: Io): (r: Error<Io, Utf8Err>)
    ensures Cause(r) == Some(IoCause(x))
  {
    IO(x)
  }

  /** `From<Utf8Error> for Error`. */
  function FromUtf8<Io, Utf8Err>(x: Utf8Err): (r: Error<Io, Utf8Err>)
    ensures Cause(r) == Some(Utf8Cause(x))
  {
    Utf8(x)
  }

  /** Rust's blanket `From<Error> for Error`, used when `itry!` is applied to
      a result that already carries an `Error`. */
  function FromError<Io, Utf8Err>(e: Error<Io, Utf8Err>): (r: Error<Io, Utf8Err>)
    ensures Kind(r) == Kind(e) && Cause(r) == Cause(e)
  {
    e
  }

  /** `cause()` recovers exactly what a `From` conversion wrapped. */
  lemma CauseInvertsFrom<Io, Utf8Err>(e: Error<Io, Utf8Err>, x: Io, y: Utf8Err)
    ensures Cause(e) == Some(IoCause(x)) <==> e == FromIo(x)
    ensures Cause(e) == Some(Utf8Cause(y)) <==> e == FromUtf8(y)
  {
  }

  /** What evaluating `itry!(x)` does to the enclosing `next()`: carry on with
      a value, or return the given item from it. */
  datatype Flow<V, R> = Continue(value: V) | Return(item: R)

  /** The `itry!` macro inside a `next()` whose items are
      `Result<X, Error>`: `Ok(v)` evaluates to `v`, `Err(e)` makes `next()`
      return `Some(Err(From::from(e)))`; `from` is the `From` conversion
      that applies to the error type `F`. */
  function Itry<V, F, X, Io, Utf8Err>(x: Result<V, F>, from: F -> Error<Io, Utf8Err>)
    : (r: Flow<V, Option<Result<X, Error<Io, Utf8Err>>>>)
    ensures r.Continue? <==> x.Ok?
    ensures r.Continue? ==> r.value == x.value
    ensures r.Return? ==> IsSomeErr(r.item) && r.item.value.error == from(x.error)
  {
    match x
    case Err(e) => Return(Some(Err(from(e))))
    case Ok(v) => Continue(v)
  }

  /** An I/O failure that `itry!` propagates is still reachable through
      `cause()` of the item it returns. */
  lemma ItryKeepsIoCause<V, X, Io, Utf8Err>(x: Result<V, Io>)
    requires x.Err?
    ensures var r := Itry<V, Io, X, Io, Utf8Err>(x, FromIo);
            r.Return? && Cause(r.item.value.error) == Some(IoCause(x.error))
  {
  }

  /** The same for a UTF-8 failure. */
  lemma ItryKeepsUtf8Cause<V, X, Io, Utf8Err>(x: Result<V, Utf8Err>)
    requires x.Err?
    ensures var r := Itry<V, Utf8Err, X, Io, Utf8Err>(x, FromUtf8);
            r.Return? && Cause(r.item.value.error) == Some(Utf8Cause(x.error))
  {
  }

  /** An `Error` that `itry!` propagates comes out unchanged. */
  lemma ItryKeepsError<V, X, Io, Utf8Err>(x: Result<V, Error<Io, Utf8Err>>)
    requires x.Err?
    ensures Itry<V, Error<Io, Utf8Err>, X, Io, Utf8Err>(x, FromError) == Return(Some(Err(x.error)))
  {
  }

  /** `Display for Error` as written. The `Unterminated` and `IO` arms format
      the error itself with `{}`, which calls this same formatter on the same
      value again. `fuel` bounds the depth of those calls; `None` means the
      formatter has not returned within that depth. Text written into the
      formatter before it returns (the `IO` arm's "I/O Error: " prefix) is
      not tracked: a result is all or nothing. */
  function DisplayAsWritten<Io, Utf8Err>(e: Error<Io, Utf8Err>, fuel: nat,
                                         ioDisplay: Io -> string,
                                         utf8Display: Utf8Err -> string): (r: Option<string>)
    ensures !(e.Unterminated? || e.IO?) && fuel > 0 ==> r.Some?
    decreases fuel
  {
    if fuel == 0 then None
    else
      match e
      case Unterminated => DisplayAsWritten(e, fuel - 1, ioDisplay, utf8Display)
      case IO(_) =>
        (match DisplayAsWritten(e, fuel - 1, ioDisplay, utf8Display)
         case None => None
         case Some(s) => Some("I/O Error: " + s))
      case Unexpected(s) => Some("Unexpected lexeme: '" + s + "'")
      case Utf8(x) => Some("UTF8 Error: " + utf8Display(x))
      case Escape(s) => Some("Malformed escape: '" + s + "'")
      case MoreLexemes => Some("More lexemes expected")
      case Unmatched(c) => Some("Unmatched container terminator: " + [c])
      case AdditionalData => Some("Additional data in the source stream after parsed value")
  }

  /** Formatting `Unterminated` or `IO` never returns, however deep the call
      stack may grow. */
  lemma {:induction false} DisplayAsWrittenNeverEnds<Io, Utf8Err>(
    e: Error<Io, Utf8Err>, fuel: nat,
    ioDisplay: Io -> string, utf8Display: Utf8Err -> string)
    requires e.Unterminated? || e.IO?
    ensures DisplayAsWritten(e, fuel, ioDisplay, utf8Display) == None
  {
    if fuel > 0 {
      DisplayAsWrittenNeverEnds(e, fuel - 1, ioDisplay, utf8Display);
    }
  }

  /** `Display for Error` with the two self-referring arms replaced: the
      `IO` arm shows its payload, as the `Utf8` arm does, and `Unterminated`
      gets a fixed message of its own. */
  function Display<Io, Utf8Err>(e: Error<Io, Utf8Err>,
                                ioDisplay: Io -> string,
                                utf8Display: Utf8Err -> string): (r: string)
    ensures |r| > 0
  {
    match e
    case Unterminated => "Unterminated string"
    case IO(x) => "I/O Error: " + ioDisplay(x)
    case Unexpected(s) => "Unexpected lexeme: '" + s + "'"
    case Utf8(x) => "UTF8 Error: " + utf8Display(x)
    case Escape(s) => "Malformed escape: '" + s + "'"
    case MoreLexemes => "More lexemes expected"
    case Unmatched(c) => "Unmatched container terminator: " + [c]
    case AdditionalData => "Additional data in the source stream after parsed value"
  }

  /** The corrected formatter keeps every arm that terminates as written, at
      every depth, and shows the payload of an I/O error. */
  lemma DisplayKeepsTerminatingArms<Io, Utf8Err>(
    e: Error<Io, Utf8Err>, fuel: nat,
    ioDisplay: Io -> string, utf8Display: Utf8Err -> string)
    requires fuel > 0
    ensures !(e.Unterminated? || e.IO?) ==>
              DisplayAsWritten(e, fuel, ioDisplay, utf8Display) == Some(Display(e, ioDisplay, utf8Display))
    ensures e.IO? ==> Display(e, ioDisplay, utf8Display) == "I/O Error: " + ioDisplay(e.io)
  {
  }
}
