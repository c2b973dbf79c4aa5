# errorc: errors decorated with fields

A Dafny model of the Go package `errorc` (`fields.go`). The package attaches
key/value diagnostic fields to any Go `error`. Annotating an error whose
unwrap chain holds no `*ErrorWithFields` wraps it in a new one. Every later
annotation of the returned error, or of an error whose chain contains it,
walks the chain, finds that same object and mutates its field map in place.
Annotating the original undecorated error again builds a second, separate
wrapper that does not carry the first one's fields. `Wrap`, `mustBase` and
the annotating functions never add a second decorated error to a chain that
already holds one. `Newf` is the exception:
the error `fmt.Errorf` builds may wrap (`%w`) a decorated error, and later
annotations then reach only the new, outer one.

The model has two modules:

- `Errorc` (`fields.dfy`) holds error values, the `ErrorWithFields` class and
  the package functions.
  - A Go `error` is the datatype `Error<V>`. It is `Nil`, or an immutable
    `Plain` error (identity `id`, message `msg`, wrapped `next`), or `Dec(ref)`,
    a pointer to an `ErrorWithFields` object compared by reference, or
    `NilRef`, a non-nil `error` that holds a nil `*ErrorWithFields`.
    `AsError` turns a `*ErrorWithFields` result into an `error`.
  - `ErrorWithFields` is a class. Its `cause` and captured `stack` are
    constants, because the package never reassigns them. Its
    `fields: Option<map<string, V>>` is mutated in place; `None` is Go's nil
    map. `V` stands for the dynamic `interface{}` values.
  - `Link(e, n)` is the n-th link of an unwrap chain. `IsInChain` is
    `errors.Is` as chain membership. `FirstDecorated` specifies `base`.
- `Formatting` (`formatting.dfy`) holds the plain renderings: verb `'s'` and
  verb `'v'` without `+`. Go leaves map iteration order unspecified, so the
  rendering takes an explicit iteration order, and every lemma holds for all
  orders.

Conventions:

- The program counters that `runtime.Callers` would capture are a parameter,
  `pcs`.
- `fmt.Sprintf` and `fmt.Errorf` are parameters too: a `sprintf` function, or
  the already formatted message.
- `ErrorWithFields.Valid()` says that the cause is never itself a decorated
  error (a `Dec` value). All three creation sites keep this. `Wrap` and
  `mustBase` wrap only chains in which `base` finds no decorated error. That
  includes a chain starting with `NilRef`, where `base` stops and returns the
  nil pointer. `Newf` wraps the error `fmt.Errorf` returns, and the zero value
  wraps nil. `Message` (Go's promoted `Error()`) relies on it.

## Model

| member | source | states |
|---|---|---|
| `Errorc.ErrorWithFields.constructor` | fields.go:54-58 | a new decorated error holds the given cause and captured stack and an empty, non-nil field map |
| `Errorc.ErrorWithFields.Zero` | fields.go:13-17 | the zero value `&ErrorWithFields{}` has a nil cause and a nil field map |
| `Errorc.ErrorWithFields.Unwrap` | fields.go:23-25 | the result is the step `errors.Unwrap` takes from the decorated link, so the decorated error is transparent to chain walks |
| `Errorc.ErrorWithFields.Is` | fields.go:19-21 | for a non-nil target, the `Is` method holds exactly when the target is one of the links strictly below the decorated error |
| `Errorc.ErrorWithFields.LogFields` | fields.go:27-29 | returns the field table as it is: nil exactly when the map is nil, and a nil table reads as empty |
| `Errorc.ErrorWithFields.AddField` | fields.go:101-109 | afterwards `key` maps to `value`; every other key keeps its old value; a nil map becomes `{key: value}`; the receiver is returned |
| `Errorc.ErrorWithFields.AddFieldf` | fields.go:119-121 | as AddField, with the value that `sprintf(valueFormat, args)` produces |
| `Errorc.IsThroughDecorated` | fields.go:19-21 | for a non-nil target, `errors.Is` on a decorated error holds exactly when the target is that error or its `Is` method (delegating to the cause's chain) holds |
| `Errorc.DecoratedIsItsCause` | fields.go:19-25 | a decorated error still matches, under `errors.Is`, the error it wraps |
| `Errorc.Message` | fields.go:13-15 | the promoted `Error()`: a decorated error renders its cause's message; the result is absent (Go panics) exactly when the link it reads is not a plain error |
| `Errorc.AnnotatePlain` | fields_test.go:25-31 | annotating a plain error whose chain holds no decorated error yields an object holding just that field, which `errors.Is` still matches with the original error |
| `Errorc.AnnotateDropsWrapper` | fields.go:92-98 | annotating a plain error that wraps a decorated one resolves to that decorated error, and `errors.Is` on it no longer matches the plain wrapper; this holds whenever the decorated error is not below itself in its own chain, which includes one built by `Newf` over another decorated error |
| `Errorc.FirstDecoratedIsFirstInChain` | fields.go:64-77 | the walk's result is the first decorated link of the chain, all links before it are plain, and it is nil exactly when no link is decorated |
| `Errorc.Base` | fields.go:64-77 | the loop that follows the chain returns nil for nil and otherwise the first decorated link, or nil if there is none |
| `Errorc.MustBase` | fields.go:79-90 | returns the decorated error already in the chain, or else a freshly allocated one whose cause is `err` (nil included) and whose map is empty |
| `Errorc.Wrap` | fields.go:51-62 | returns `err` unchanged when its chain is decorated; otherwise a fresh decorated error around `err` (also for nil); either way the result's chain is decorated |
| `Errorc.Newf` | fields.go:43-49 | a fresh decorated error around the formatted message error, with an empty map |
| `Errorc.Cause` | fields.go:31-37 | nil for nil; otherwise exactly one layer: the cause of the chain's decorated error, or `err` itself when there is none |
| `Errorc.AddField` | fields.go:92-99 | nil for nil, with nothing allocated or mutated; otherwise the chain's decorated error gets the field and is returned; without one, a fresh wrapper around `err` holds just that field |
| `Errorc.AddFieldf` | fields.go:111-117 | as package AddField, with the value that `sprintf(valueFormat, args)` produces; nil for nil |
| `Errorc.AddFields` | fields.go:123-133 | nil for nil; otherwise the resolved object's map ends as the old map overridden by every entry of `m`, whatever the iteration order, and that object is returned |
| `Errorc.WrapTwice` | fields.go:51-77 | `Wrap(Wrap(e))` is the same value as `Wrap(e)`: the second call allocates nothing |
| `Errorc.CauseOfWrap` | fields.go:31-37 | for an error whose chain has no decorated error (nil included), `Cause(Wrap(e))` is `e` |
| `Errorc.AddTwoFields` | fields.go:92-109 | annotating the result again mutates the same object: both fields are present, and a repeated key keeps the later value |
| `Errorc.AnnotateOriginalTwice` | fields.go:79-99 | annotating the same undecorated error twice builds two distinct wrappers, each holding only its own field: `base` finds nothing in the original chain either time |
| `Errorc.WrapOfNil` | fields.go:51-59 | as written, `Wrap(nil)` is a non-nil decorated error around nil whose `Error()` would panic |
| `Errorc.WrapOrNil` | fields.go:51-62 | Wrap with nil propagation: the result is nil exactly when `err` is nil; otherwise it is Wrap's result |
| `Errorc.AddFieldOfNilAsError` | fields.go:92-95 | as written, `AddField(nil, …)` used as an `error` is not nil, and `Wrap` decorates it again with an error whose `Error()` would panic |
| `Errorc.AddFieldAsError` | fields.go:92-99 | package AddField with an `error` result: nil exactly when `err` is nil, otherwise the decorated error that received the field |
| `Formatting.Format` | fields.go:166-182 | for `'s'` and `'v'` without `+`: nothing is rendered (Error() panics) exactly when the cause is nil or a nil pointer, and a plain cause's message is a prefix of the text; other verbs write nothing |
| `Formatting.FormatShowsEveryField` | fields.go:178-182 | in every iteration order the rendering shows each field as `. key: value` |
| `Formatting.EnumerationSize` | fields.go:180-182 | every iteration order of the field map visits exactly as many keys as the map has |
| `Formatting.FormatOneField` | fields.go:178-182 | with a single field the rendering is determined: message, then `. key: value` |
| `Formatting.TestErrorRendering` | fields_test.go:41-48 | the test's error with message `ss-1` and field `BB = CC` renders as `ss-1. BB: CC` |

## Left out

- Stack capture and rendering (`stack`, `callers`, `StackTrace`, `stack.Format`, fields.go:135-164) use runtime program-counter introspection. The captured program counters are the parameter `pcs`. They are stored once, in a constant field, and never recaptured.
- Errorc.MustBase: models both `MustBase` and `mustBase`. Their `skip` argument only changes which frames `callers` captures, so it is not modelled.
- Formatting.Format: requires the verb not to be `'q'`, and not `'v'` with `+`. Those branches (fields.go:169-175, 183-187) depend on Go's `%+v` and `%q` rendering of arbitrary values and on Go's quoting rules.
- Formatting.Format: requires `Valid()` (the cause is not itself a decorated error). Every creation site keeps this, so Go's promoted `Error()` needs no recursion through the heap.
- Formatting.Format: returns `None` where Go's `Error()` would be called on a nil interface. Go's `fmt` catches that panic and prints a panic annotation, which is not modelled.
- `fmt.Sprintf` and `fmt.Errorf` (in `AddFieldf` and `Newf`) are parameters: a `sprintf` function, or the formatted message with the error it wraps.
- `errors.Is` and `errors.Unwrap` come from a foreign library. `errors.Is` is modelled as "the target is a link of the chain". Custom `Is` methods of foreign error types are not modelled. `errors.Unwrap` of a plain error is its `next`.
- Map iteration order is unspecified in Go. `AddFields` picks keys with `:|`, and `Format` takes an explicit order. Only order-independent facts are proved.
- Cyclic unwrap chains are not representable: `Error<V>` values are finite, and a decorated error's cause is fixed at creation. Go's `base` loop (fields.go:70-75) would never end on an error whose `Unwrap` returns itself or leads back into a cycle.
- Concurrency is not modelled. The package has none, and the field map is unsynchronised.
- Calling the `AddField` method on a nil `*ErrorWithFields` panics in Go. Model methods take a non-null receiver.
- Unlike `AddField`, `AddFieldf`, `AddFields` and `Cause` (fields.go:32, 93, 112, 124), `Wrap` has no nil check. The model follows the code (see Findings).
- Errorc.ErrorWithFields.LogFields: Go returns the map itself, so a caller's write to it changes the error, and a later `AddField` shows through the earlier result. The model returns the table as a value, so this aliasing is not captured.
- `NilRef`: in Go, `errors.Unwrap`, `errors.Is` (for any other target) and `Error()` on a nil `*ErrorWithFields` dereference the nil pointer and panic. The model ends the chain there: `Unwrapped(NilRef)` is nil, and `IsInChain` is false for other targets. Only `Message` reports the panic, as `None`.

## Findings

| source | as written | input that shows it | evidently intended | confidence | as-written member | corrected member |
|---|---|---|---|---|---|---|
| fields.go:51-59 | `Wrap` has no nil check, so `base(nil)` is nil and a new decorated error around nil is returned | `err = nil`: the result is non-nil, and its `Error()` calls a method on a nil interface | `Wrap(nil)` returns nil, as `AddField`, `AddFieldf`, `AddFields` and `Cause` do for nil | medium; not executed | `Errorc.WrapOfNil` | `Errorc.WrapOrNil` |
| fields.go:92-95 | package `AddField` (likewise `AddFieldf` and `AddFields`) returns a nil `*ErrorWithFields` for nil, and that result stored in an `error` is not nil | `err = nil`: `Wrap(AddField(nil, k, v))` does not see nil; `base` stops at the nil pointer, so `Wrap` builds a new decorated error around it, whose `Error()` panics | nil in gives a nil `error` out, as the nil checks at fields.go:93, 112 and 124 aim for | low; not executed | `Errorc.AddFieldOfNilAsError` | `Errorc.AddFieldAsError` |
