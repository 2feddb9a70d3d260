# errcode in Dafny

A model of the Go package `errcode`: structured errors that carry a numeric
code unique within the process, an HTTP status code and a message template
with operands, plus the search that recovers such an error from a chain of
wrapping errors.

- `wrappers.dfy` (module `Wrappers`): `Option` (Go's nil pointer) and `Result`
  (a value or a panic).
- `fmt.dfy` (module `Fmt`): the part of `fmt.Sprintf` and `strconv` that the
  package relies on. `Decimal` is Go's decimal form of an `int`. `Sprintf`
  handles the verbs `%v`, `%s` and `%d` and the escape `%%`. It writes Go's
  diagnostics: `%!v(MISSING)` for a verb with no operand, `%!(NOVERB)` for a
  trailing `%`, `%!(EXTRA type=value, ...)` for operands left over, and
  `%!verb(type=value)` for a verb that does not fit its operand. Operands are
  `IntArg` or `StrArg`.
- `errcode.dfy` (module `ErrCode`):
  - the `Error` value with `Code`, `HTTPStatusCode`, `Message`, `WithArgs` and
    `Error` (Go's `Error()` method).
  - the class `Registry`, which stands for the package variable `codes`, with
    `NewError`. A duplicate code gives `Failure(DuplicateCode(code))` in place
    of Go's panic.
  - the error chain `Err`: `Plain` (`errors.New`), `Wrapped(context, cause)`
    (`fmt.Errorf(context + "%w", cause)`) and `Coded` (`*errcode.Error`).
  - `Describe` (the `Error()` text of any error in a chain), `Cause`
    (`errors.Unwrap`), `Is` (`errors.Is`), and `Unwrap`/`HardUnwrap`.
    These two are loops over the chain, proved against the recursive
    specification `FirstCoded`. `Chain` lists the errors the loop visits and is
    the reference for "first coded error".
- `examples.dfy` (module `ErrCodeExamples`): the package's example functions
  and table tests. Each is a client method whose postcondition is the output
  the test expects.

Two behaviours worth knowing; the model follows the code in both:
- `NewError` accepts operands at definition time (`args ...any` at
  `errcode.go:21`). The package's documentation does not mention this, and
  `errcode_test.go:135` relies on it by passing `"username"` to it.
- For a wrapped plain error, `Unwrap` returns the wrapped input itself, as its
  doc comment at `errcode.go:65` says. The table test at
  `errcode_test.go:52-55` names the root cause as the expected result, and it
  passes only because `errors.Is` walks the chain. `TestUnwrap` states both
  facts.

## Model

| member | source | states |
|---|---|---|
| `ErrCode.Registry.constructor` | errcode.go:16 | the registry starts empty, with no definition issued |
| `ErrCode.Registry.NewError` | errcode.go:18-34 | a fresh code is added, and exactly that code; the result holds code, status, template and operands verbatim and is recorded as issued. A registered code gives the duplicate-code panic and changes nothing. The registry never shrinks, and every registered code belongs to exactly one issued definition |
| `ErrCode.Error.Code` | errcode.go:36-38 | the code is the one the definition was created with |
| `ErrCode.Error.HTTPStatusCode` | errcode.go:40-42 | the status is the one the definition was created with |
| `ErrCode.Error.Message` | errcode.go:44-50 | with no operands the raw template; with operands the template formatted with them, so a template without verbs that is given operands comes back with the report of every operand appended |
| `ErrCode.Error.WithArgs` | errcode.go:52-57 | the copy keeps code, status and template; its operands are the receiver's followed by the new ones |
| `ErrCode.WithArgsAccumulates` | errcode.go:52-57 | two WithArgs calls equal one call with both operand lists; WithArgs with no operands gives the same value |
| `ErrCode.WithArgsFormats` | errcode.go:44-57 | binding operands to a definition that has none makes Message the template formatted with them, and the definition's own Message stays the raw template |
| `ErrCode.MessageKeepsVerbsWithoutArgs` | errcode.go:44-50 | with no operands Message returns the template unprocessed, verb included, although formatting it would report `%!v(MISSING)` |
| `ErrCode.Error.Error` | errcode.go:59-61 | the text is the decimal code, then " - ", then Message(): `%d` and `%s` each take one operand and nothing is left over |
| `ErrCode.ErrorTextRoundTrip` | errcode.go:59-61 | Error() can be split back into exactly the code and the message it was built from |
| `ErrCode.Describe` | errcode.go:59-61 | the text of a coded error in a chain is what its Error method prints |
| `ErrCode.Chain` | errcode.go:67 | the errors the unwrap loop visits start at the input |
| `ErrCode.ChainFollowsCause` | errcode.go:67 | the chain is the walk by errors.Unwrap: the cause of each element is the next one, and the last element has no cause |
| `ErrCode.FirstCoded` | errcode.go:67-71 | a coded error stops the search at once, and whatever the search finds is a coded error of the input's chain |
| `ErrCode.FirstCodedIsOutermost` | errcode.go:66-74 | the coded error the search returns sits in the input's chain, and no error before it there is coded |
| `ErrCode.FirstCodedNoneIffUncoded` | errcode.go:76-85 | the search finds nothing exactly when no error of the chain is coded |
| `ErrCode.Unwrap` | errcode.go:63-74 | returns the first coded error of the chain, or the input itself when there is none; either way errors.Is(input, result) holds |
| `ErrCode.HardUnwrap` | errcode.go:76-85 | returns the first coded error and true exactly when the chain holds a coded error, and nil and false otherwise |
| `ErrCode.UnwrapAgreement` | errcode.go:66-85 | HardUnwrap reports true exactly when Unwrap returns a coded error, and then both return the same one; otherwise Unwrap returns the input |
| `ErrCode.WrappingPreservesSearch` | errcode.go:66-85 | wrapping N >= 0 times does not change what the search finds: a coded error is still recovered and a plain one still gives nothing |
| `ErrCode.Is` | errcode_test.go:65 | every error matches itself |
| `ErrCode.ChainTextIsSuffix` | errcode_test.go:150-154 | whenever errors.Is finds a target in an error's chain, the error's text ends with the target's text |
| `ErrCode.WrappedText` | errcode_test.go:150-153 | the text of an error wrapped several times is the contexts, outermost first, followed by the text of the cause |
| `Fmt.Digits` | errcode.go:60 | the decimal digits of a natural number form a non-empty digit string with no leading zero |
| `Fmt.DigitsRoundTrip` | errcode.go:60 | reading the digits back gives the number |
| `Fmt.Decimal` | errcode.go:60 | the decimal form of every int, negative ones included, parses back to that int and contains no space and no percent sign |
| `Fmt.ScanConsumesOnePerVerb` | errcode.go:46 | formatting consumes one operand per verb, in order, and leaves the rest unconsumed |
| `Fmt.SurplusOperandsReported` | errcode.go:46 | leftover operands are reported exactly when there are more operands than verbs, and the output then ends with the report of exactly the surplus ones |
| `Fmt.SprintfNoVerbs` | errcode.go:44-47 | a template without `%` is copied, followed by the report of every operand |
| `Fmt.ScanLiteral` | errcode.go:46 | template text without `%` is copied to the output unchanged |
| `Fmt.SprintfLiteral` | errcode.go:46 | a template without `%` and without operands formats to itself |
| `Fmt.SprintfOneVerb` | errcode.go:44-47 | one `%v` between literal parts is replaced by the operand's text |
| `Fmt.SprintfMissingOperand` | errcode.go:44-50 | one `%v` with no operand is rendered as `%!v(MISSING)`; this is why Message skips formatting when there are no operands |
| `ErrCodeExamples.TestNewError` | errcode_test.go:20-30 | registering one code twice: the first call succeeds, the second panics |
| `ErrCodeExamples.RegisterDistinct` | errcode.go:21-34 | two distinct unregistered codes both register, in either order, and both are then registered |
| `ErrCodeExamples.ExampleNewError` | errcode_test.go:122-126 | the new definition prints as "1 - Internal Server Error" |
| `ErrCodeExamples.ExampleHTTPStatusCode` | errcode_test.go:128-132 | the status of the definition is 404 |
| `ErrCodeExamples.ExampleMessage` | errcode_test.go:134-138 | an operand given at definition time gives "Invalid username" |
| `ErrCodeExamples.InvalidUsername` | errcode_test.go:135-137 | the template "Invalid %v" with the operand "username" reads "Invalid username" |
| `ErrCodeExamples.TestUnwrap` | errcode_test.go:32-120 | Unwrap table: the plain error, the coded error, the wrapped plain error (itself; `errors.Is` still finds the plain error in it) and the coded error again. HardUnwrap table: nil/false, the error/true, nil/false, the error/true |
| `ErrCodeExamples.ExampleUnwrap` | errcode_test.go:140-155 | the wrapped error prints "service: repo: 4 - Invalid username" and Unwrap recovers "4 - Invalid username" |
| `ErrCodeExamples.ExampleHardUnwrap` | errcode_test.go:157-180 | the wrapped error prints "service: repo: 5 - Invalid username"; HardUnwrap recovers the error with found = true, code 5, status 400, message "Invalid username", text "5 - Invalid username" |

## Left out

- The registry is the object `Registry` rather than hidden package state. The model is sequential. Concurrent use of the unsynchronised map is outside the package's contract.
- `ErrCode.Registry.NewError`: the panic is the value `DuplicateCode(code)`. The panic message text built with `strconv.Itoa` is not modelled.
- `ErrCode.Unwrap` and `ErrCode.HardUnwrap`: a nil input is not modelled. In Go it returns nil, or nil and false, without entering the loop.
- A typed nil `*Error` stored in an `error` is not modelled.
- Every error value (`Plain`, `Wrapped` and `Coded`) is compared by value, not by pointer: `Is(Plain("x"), Plain("x"))` holds, whereas Go's `errors.Is(errors.New("x"), errors.New("x"))` is false. `errors.Is` is modelled as membership in the cause chain; custom `Is` methods are not modelled.
- Errors with several causes (`Unwrap() []error`, as built by `errors.Join` or by `fmt.Errorf` with several `%w`) appear as `Plain`: `errors.Unwrap` returns nil for them, so the search stops there.
- A custom type with its own `Unwrap() error` method is searched like `Wrapped`. Only its text may differ, since the model takes a wrapper's text to be its context followed by its cause's text.
- Every chain of `Err` is finite and acyclic by construction. A Go type whose `Unwrap() error` leads back into its own chain makes the loops of `Unwrap` and `HardUnwrap` run forever. The model cannot build such a chain, and that is why its loops terminate.
- A wrapper's text is its context followed by its cause's text. Text after the `%w` verb of `fmt.Errorf` is not modelled.
- `Fmt.Sprintf` leaves out flags, width, precision, argument indexes and every verb other than `%v`, `%s`, `%d` and `%%`. The character after `%` is always read as the verb. Verbs outside that set are rendered as Go renders an unknown verb (`%!z(int=3)`), which for `%x`, `%q` and the like differs from Go. A flag or width is taken as the verb too: `Sprintf("%5d", [IntArg(3)])` gives `%!5(int=3)d`, where Go gives `    3`.
- Operands are only `int` and `string`. Formatter, Stringer and error operands, and nil operands, are not modelled.
- Go's `int` is 64 bits wide; the model uses unbounded integers. No arithmetic is done on codes, so no wrap-around can occur.
- The backing array that `append` in `WithArgs` may share between sibling results is not modelled. Operands are immutable sequences.
- The tests' `randomUniqueCode` (which uses `math/rand`) is replaced by a code parameter. The `net/http` status constants are written as their numbers.
