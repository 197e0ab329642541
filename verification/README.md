# ijson-rust error handling, modelled in Dafny

The streaming JSON parser ijson-rust reports every failure as an item of its
event stream. Two things make that work, and both live in `src/errors.rs`:

- the `Error` taxonomy. It has eight kinds of failure. Two of them wrap a
  foreign `io::Error` or `Utf8Error`. It comes with `cause()`,
  `description()`, the two `From` conversions and the `itry!` early-return
  macro;
- `ResultIterator`. It is a fail-stop decorator over any iterator of
  `Result<T, E>`. It passes the inner items through unchanged until the first
  `Err`. After that it answers `None` for good and never calls the inner
  iterator again.

Files:

- `wrappers.dfy` (module `Wrappers`): Rust's `Option` and `Result`, and the
  predicate `IsSomeErr` for the item shape `Some(Err(..))`.
- `errors.dfy` (module `Errors`):
  - `Error`, generic in the two foreign payload types `Io` and `Utf8Err`;
  - `Cause`, `Description`, `FromIo`, `FromUtf8` and `Itry`;
  - the `Display` finding below.

  The payloads' own `description()` and `Display` are function parameters.
- `fail_stop.dfy` (module `FailStop`):
  - the wrapped iterator is the value type `Stream`. It is a finite list of
    the answers its `next()` gives, read from a cursor. It answers `None`
    past the end, and it may answer `None` and later `Some` again;
  - the class `ResultIterator` holds that stream in the field `inner`.
    `iterator` is a Dafny keyword, so the field is not called that. It also
    holds the `errored` flag. `Next` reassigns both, as `next(&mut self)`
    does;
  - the specification function `FailStopView(xs)` gives what the wrapper
    answers to `|xs|` calls when the inner iterator would answer `xs`. It is
    `Cut(xs)` (`xs` cut off just after its first error) followed by `None`s;
  - two ghost fields tie the object to that function. `origin` is the stream
    as it was handed over, and `produced` holds every answer so far. The
    invariant `Valid()` says that `produced == FailStopView(origin.Window(|produced|))`,
    that `errored` holds exactly when `produced` contains an error, and how
    far the inner cursor has moved.

## Model

| member | source | states |
|---|---|---|
| `FailStop.ResultIterator.constructor` | src/errors.rs:20-25 | a new wrapper holds the given iterator unchanged, is not errored and has produced nothing |
| `FailStop.ResultIterator.Next` | src/errors.rs:31-40 | once errored: answers `None`, leaves the inner iterator alone, stays errored. Otherwise: answers exactly the inner iterator's next item (`None` included) and advances it by one; `errored` becomes true exactly when that item is `Some(Err(_))`. Either way the answers so far equal `FailStopView` of the inner answers, and `errored` never goes back to false |
| `FailStop.Cut` | src/errors.rs:31-40 | the output up to the first error is a prefix of the inner items; with no error it is all of them |
| `FailStop.CutEndsAtFirstErr` | src/errors.rs:36-38 | the output holds an error exactly when the inner items do; it then holds exactly one error, as its last item |
| `FailStop.CutSnoc` | src/errors.rs:32-39 | one more inner answer extends the output only while no error has been passed on; after an error the output stops growing |
| `FailStop.CutPrefixStable` | src/errors.rs:32-34 | once an error has been passed on, nothing the inner iterator would answer later changes the output |
| `FailStop.FailStopViewHasErr` | src/errors.rs:36-38 | the wrapper's answers contain an error exactly when the inner answers do |
| `FailStop.FailStopViewSnoc` | src/errors.rs:31-40 | each further call adds exactly one answer: `None` after an error, the inner answer before it |
| `FailStop.ViewStep` | src/errors.rs:31-40 | the same step, stated for the stream the wrapper was built on |
| `FailStop.FailStopAfterFirstErr` | src/errors.rs:31-40 | when the first error is at index `k`, the wrapper answers the items up to and including it and then only `None`, whatever the inner iterator would answer later |
| `FailStop.LastIsFirstErr` | src/test.rs:108-117 | when the inner iterator answers no `None` before its first error, `last()` on the wrapper (the last item before the first `None`) is that error |
| `FailStop.FailStopViewIdempotent` | src/errors.rs:31-40 | wrapping an already fail-stop sequence again changes nothing |
| `FailStop.ExhaustionDoesNotLatch` | src/errors.rs:36-39 | an inner `None` does not latch the wrapper: an item the inner iterator answers after it is still passed through |
| `Errors.Cause` | src/errors.rs:84-91 | `cause()` is `Some` exactly for `IO` and `Utf8`, and then holds that variant's own payload |
| `Errors.Description` | src/errors.rs:71-82 | `IO` and `Utf8` delegate to their payload's description; every other kind has a non-empty text (that it is fixed per kind is `Errors.DescriptionIdentifiesKind`) |
| `Errors.DescriptionNeedsPayloadOnlyWithCause` | src/errors.rs:71-91 | when `cause()` is `None`, the description does not depend on the foreign library |
| `Errors.DescriptionIdentifiesKind` | src/errors.rs:72-81 | for two non-wrapping errors, the descriptions are equal exactly when the kinds are: each such kind has one text whatever its own payload, and the six texts are distinct |
| `Errors.FromIo` | src/errors.rs:94-98 | converting an `io::Error` gives an error whose `cause()` is that same `io::Error` |
| `Errors.FromUtf8` | src/errors.rs:100-104 | converting a `Utf8Error` gives an error whose `cause()` is that same `Utf8Error` |
| `Errors.CauseInvertsFrom` | src/errors.rs:84-104 | `cause()` names a given foreign error exactly when the error is the `From` conversion of it |
| `Errors.FromError` | src/errors.rs:5-11 | the identity conversion `itry!` uses on results that already carry an `Error` keeps kind and cause |
| `Errors.Itry` | src/errors.rs:5-11 | `itry!` continues exactly on `Ok`, with the unwrapped value. On `Err(e)` it returns an item of the shape `Some(Err(_))` holding `From::from(e)`, the shape that latches the fail-stop wrapper |
| `Errors.ItryKeepsIoCause` | src/errors.rs:5-11 | an I/O failure propagated by `itry!` can still be reached through `cause()` of the returned item |
| `Errors.ItryKeepsUtf8Cause` | src/errors.rs:5-11 | the same for a UTF-8 failure |
| `Errors.ItryKeepsError` | src/errors.rs:5-11 | an `Error` propagated by `itry!` comes out unchanged |
| `Errors.DisplayAsWritten` | src/errors.rs:55-68 | `Display` as written. Every arm other than `Unterminated` and `IO` returns its text at the first level of formatting |
| `Errors.DisplayAsWrittenNeverEnds` | src/errors.rs:58-59 | formatting `Unterminated` or `IO` as written never returns, at any depth of self-calls |
| `Errors.Display` | src/errors.rs:55-68 | the corrected formatter always produces non-empty text |
| `Errors.DisplayKeepsTerminatingArms` | src/errors.rs:60-65 | the corrected formatter agrees with the one as written on the six arms that terminate, and shows an I/O error's payload |

## Findings

| source | as written | input that shows it | evidently intended | confidence | as-written member | corrected member |
|---|---|---|---|---|---|---|
| src/errors.rs:58-59 | the `Unterminated` and `IO` arms of `Display::fmt` write `self` with `{}`, which calls `fmt` on the same value again, without end | formatting `Error::Unterminated` (it never returns), as the failure message of the `unterminated_string` test at src/test.rs:115 would | a message of their own; for `IO`, the wrapped `io::Error`, as the `Utf8` arm shows its payload | not executed; high that it recurses, low on the exact `Unterminated` text | `Errors.DisplayAsWrittenNeverEnds` | `Errors.Display` |

## Left out

- The `iterator` field is called `inner`, because `iterator` is a Dafny keyword.
- The wrapped iterator is a finite list of answers (`Stream`), not a lazy source. Past the end of the list it answers `None`. Real laziness, and side effects of the inner `next()`, are not modelled.
- `io::Error` and `Utf8Error` are opaque type parameters. Their own `description()` (src/errors.rs:74,76) and `Display` (src/errors.rs:61) are function parameters, because they belong to the standard library.
- `From::from` is chosen by trait resolution in Rust. `Errors.Itry` takes the conversion as a parameter instead: `FromIo`, `FromUtf8` or `FromError`.
- `Errors.Display`: writing into an `fmt::Formatter` and its `fmt::Error` result are not modelled. The formatter is a function to `string`. The text chosen for `Unterminated` is a guess.
- `Errors.DisplayAsWritten` treats a formatter's output as all or nothing. The `IO` arm writes "I/O Error: " into the formatter before each self-call, so it keeps writing that prefix until the stack overflows. That partial output is not modelled; the model states only that the formatter never returns.
- `#[derive(Debug)]` on `Error` (src/errors.rs:43) is not modelled. It is generated formatting.
- `src/test.rs` drives the lexer, the parser, the path filter and the builder. Their sources are not part of this model. Only the fail-stop behaviour of its `unterminated_string` test is stated, in `FailStop.LastIsFirstErr`.
