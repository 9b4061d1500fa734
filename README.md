# Responder engine of the chatbot

This project models the pattern-matching responder of the chatbot service
(`internal/bot/bot.go`). A `Bot` holds bindings from compiled regular expressions to
handlers:

- `Respond` puts `^` in front of a pattern and `$` after it, then registers it. This
  anchors the whole sentence only when the pattern has no top-level `|`.
- `RespondRegex` registers an expression that may match anywhere in the sentence. Before
  compiling it, it puts the inline flag `(?i)` first so that matching ignores case. The flag
  goes right after a leading `^` anchor if there is one. It is not added twice.
- `Sentence` answers a sentence. It calls the handler of the first binding whose expression
  matches, passing capture groups 1..N. If nothing matches, it returns `"nope"`.

Files:

- `wrappers.dfy`: `Option` and `Outcome`. `Outcome` stands for Go's `error` result, where
  `nil` means success.
- `regexp.dfy`: the regular-expression library, kept opaque. An `Engine` value holds two
  functions. The first is a syntax check: `None` means the expression compiles, `Some(d)`
  gives the compiler's diagnostic. The second is `findSubmatch`. It returns all groups with
  group 0 first, or the empty list when nothing matches, like Go's `nil`. A `Bot` is built
  with the engine it compiles and matches with.
- `error.dfy`: the two registration errors. They are the `ErrEmptyPattern` sentinel and the
  wrapped compile error.
- `bot.dfy`: the normalisation as pure functions with lemmas, the dispatch specification
  (`FirstMatch`, `Answer`) with lemmas, and the `Bot` class. The class has a `brain` field
  and the methods `Respond`, `RespondRegex` and `Sentence`.

Dispatch order. The Go code stores bindings in a map keyed by freshly allocated `*Regexp`
values. Two registrations therefore never collide, even with identical expressions. The
order in which `Sentence` tries them is unspecified. The model stores `brain` as a sequence
in registration order and tries it front to back, so the first registered matching binding
wins. `Bot.AnswerIsSomeFiringHandler` states the order-independent guarantee that the Go code
itself gives. Go's `string` is a byte string. The normalisation only compares and slices at
the ASCII bytes `^` and `(?i)`, so modelling strings as `seq<char>` changes nothing there.

## Model

| member | source | states |
|---|---|---|
| `Bot.Wrap` | internal/bot/bot.go:47 | the expression `Respond` builds is the pattern with `^` in front and `$` at the end, two characters longer |
| `Bot.Normalize` | internal/bot/bot.go:59-71 | the result carries the case-insensitivity flag first, after the anchor if there is one; the anchor is kept; an already-flagged expression is unchanged; otherwise `(?i)` is inserted at the anchor position and nothing else changes |
| `Bot.AnchoredFlag` | internal/bot/bot.go:59-62 | for an expression that starts with `^`, the test for the prefix `^(?i)` is the same as the test for the flag placed right after the anchor |
| `Bot.NormalizeIdempotent` | internal/bot/bot.go:59-71 | normalising an already normalised expression changes nothing |
| `Bot.NormalizePrefix` | internal/bot/bot.go:59-71 | the result starts with `^(?i)` exactly when the input starts with `^`, and with `(?i)` otherwise |
| `Bot.NormalizeGrowth` | internal/bot/bot.go:59-71 | the length grows by exactly 4, or by 0 when the flag is already in place; the expression is left unchanged exactly when it is already flagged |
| `Bot.RespondExpression` | internal/bot/bot.go:46-48 | `Respond` never hands on an empty expression; what it registers starts with `^(?i)` and ends with `$`; it equals `^(?i)` + pattern + `$`, or `^` + pattern + `$` when the pattern already begins with `(?i)` |
| `Bot.FirstMatch` | internal/bot/bot.go:84-88 | the position found is of a binding that matches, with no matching binding before it; no position is found exactly when no binding matches |
| `Bot.AnswerNoMatch` | internal/bot/bot.go:84-95 | when no binding matches, the reply is `"nope"` |
| `Bot.AnswerFirstWins` | internal/bot/bot.go:84-93 | when binding i is the first that matches, the reply is its handler's output on the message with the sentence, the context and groups 1..N (group 0 dropped) |
| `Bot.AnswerIsSomeFiringHandler` | internal/bot/bot.go:84-95 | whatever the iteration order, the reply is `"nope"` with nothing matching, or the reply of some binding that matches |
| `Bot.AnswerAfterRegister` | internal/bot/bot.go:73-78 | adding a binding keeps the reply to every sentence an earlier binding answered; other sentences get the new handler's reply if its pattern matches, and `"nope"` otherwise |
| `Bot.Bot.constructor` | internal/bot/bot.go:28-32 | a new bot has no bindings |
| `Bot.Bot.Respond` | internal/bot/bot.go:46-49 | never fails with the empty-pattern error; it succeeds exactly when the normalised wrapped pattern compiles; on success exactly one binding is appended and earlier ones stay; on failure the error is the compile error carrying the normalised wrapped pattern and the compiler's diagnostic, and the bindings are unchanged |
| `Bot.Bot.RespondRegex` | internal/bot/bot.go:54-79 | an empty expression fails with `EmptyPattern` and leaves the bindings unchanged; a normalised expression that does not compile fails with that expression and the compiler's diagnostic and leaves the bindings unchanged; otherwise it succeeds and appends exactly one binding of the normalised expression to the handler; every stored expression stays case-insensitive and compiled |
| `Bot.Bot.Sentence` | internal/bot/bot.go:83-96 | the reply is `Answer`, the first matching binding's handler output or `"nope"`; it changes nothing in the bot |

## Left out

- The regular-expression library: parsing, matching and case folding are left out. It is a
  parameter of the bot (`Regexp.Engine`), so no property about which sentences a given
  pattern matches is proved. That includes the upper-case test sentences.
- Whole-message matching for `Respond` is not modelled. It does not hold for every pattern:
  the pattern is not grouped, so `Respond("yes|no", f)` registers `^(?i)yes|no$`, and that
  matches any sentence starting with "yes" or ending with "no".
- `Error.Error()` (internal/bot/error.go:12-14) and the text of the wrapped compile error
  are left out. The errors are values of `BotError.Error`.
- `context.Context` is the type parameter `C`. It is passed to handlers unchanged and
  never inspected.
- Handler bodies are arbitrary total functions from `Message` to `string`. A Go handler
  that panics, for example by indexing past its captures, is not modelled.
- Concurrent `Sentence` callers, and registration racing with them, are left out.
- The random iteration order of Go maps is left out. The model fixes registration order;
  see `Bot.AnswerIsSomeFiringHandler` for the guarantee that holds for any order.
- `cmd/chatbot/main.go` is not part of this model. It holds the HTTP route, the JSON reply,
  signal handling, the metrics exporters and configuration loading.
