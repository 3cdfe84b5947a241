# speg runtime: the backtracking state stack

This project models the runtime kernel that generated PEG parsers call into
(`speg/peg.go`). A parse keeps a stack of frames. Each frame holds an offset,
a line, a column, a map of named string bindings (each with an "is global"
flag) and a committed flag. The runtime also keeps a map of recorded failures
keyed by offset.

- `frames.dfy` (module `Frames`): frames and bindings as values. It gives the
  stack each operation leaves behind (`EnterFrames`, `ExitFrames`,
  `SetFrames`, `CommitFrames`) and the variable lookup (`Lookup`). Its lemmas
  state the transactional rules: what an accepted attempt propagates, what a
  rejected one leaves behind, and how bindings shadow each other. `Action`,
  `Run` and `RunAll` describe arbitrary nested attempts, so that rollback can
  be stated for every body.
- `peg.dfy` (module `Speg`): the runtime object as a class `Peg`. Its fields
  are the input, the frame stack and the failure map. Its methods update them
  in place, as the Go methods do: `Enter` (`_enter`), `Exit` (`_exit`),
  `Commit` (`commit`, a loop over the child's bindings), `Get` (`get`, a
  downward loop over the stack), `Set` (`set`), `ToBoolean` (`toBoolean`),
  `Error` (`_error`) and `Eof` (`_eof`). Each method is proved to produce the
  stack the matching `Frames` function gives. The `panic` in `_error` becomes
  an `Outcome.Failure` value that carries the failing frame and the
  expectation, as `_UnexpectedError` does.
- `report.dfy` (module `Report`): failure records, the excerpt and the message
  `_error` synthesises, and `ParseError.Error`.
- `decimal.dfy` (module `Decimal`): how `%d` renders integers, with a
  parse-back round trip. `wrappers.dfy` holds `Option`.

Where the Go text does not compile or does not do what it evidently means,
the model follows the evident intent:

- `vars` and `errors` are never initialised in the source. They start empty here.
- `errors` is declared `map[int]string` but is given `&pegError{...}` values.
  It is modelled as a map from offset to a `PegError` record (message, line, column).
- `_error(nil, nil)` passes nil for two `string` parameters. The message is an
  `Option<string>` here, and `_eof` passes no message and an empty expression.
- `s[pos:pos+4]` in `_error` can slice past the end of the input. `Excerpt`
  clamps it to the input.
- In `commit`, `previousStateVal.s = v.s` assigns to a copy, so an existing
  parent binding is never updated. In the model the parent's binding takes
  the child's value and keeps the parent's own global flag. A key missing
  from the parent is added with the flag set.
- `_exit` has an empty body. It is modelled as the pop that discards the
  current frame. It requires two frames, so the root frame is never popped.
- `commit` does not pop the frame. The accept path is `Commit` followed by
  `Exit`, and the reject path is `Exit` alone.
- The input is a sequence of characters. Offsets, the input length and the
  excerpt count characters, where Go counts bytes.

## Model

| member | source | states |
|---|---|---|
| `Speg.Peg.constructor` | speg/peg.go:52-58 | the stack is exactly one root frame (offset 0, line 1, column 1, no bindings, not committed) and no failures are recorded |
| `Speg.Peg.AppendRoot` | speg/peg.go:52-58 | on an existing runtime, exactly one root frame is appended to the stack it already has |
| `Speg.Peg.Enter` | speg/peg.go:116-121 | the stack grows by one; the new top copies the old top's offset, line and column, with no bindings and not committed; the old top's committed flag is cleared; all lower frames are unchanged |
| `Speg.Peg.Exit` | speg/peg.go:123-125 | the current frame is discarded and every other frame is unchanged |
| `Speg.Peg.Commit` | speg/peg.go:127-145 | the loop over the child's bindings produces exactly `CommitVars` for the parent; the parent takes the child's offset, line and column and is marked committed; the child and all lower frames are unchanged; the stack height is unchanged |
| `Speg.Peg.Get` | speg/peg.go:98-105 | the result is the value of the innermost frame that binds the key, or the default when no frame binds it; nothing changes |
| `Speg.Peg.Set` | speg/peg.go:107-109 | only the top frame's binding for the key changes, and it becomes (value, flag); the stack height and lower frames are unchanged |
| `Speg.Peg.ToBoolean` | speg/peg.go:147-149 | returns the current frame's committed flag |
| `Speg.Peg.Error` | speg/peg.go:89-96 | always yields a failure carrying the current frame and expression; records a failure at the current offset with that frame's line and column, replacing any earlier record there; leaves every other record and the whole stack unchanged |
| `Speg.Peg.Eof` | speg/peg.go:83-87 | fails exactly when the current offset differs from the input length, recording the synthesised message there; otherwise succeeds and changes nothing |
| `Speg.RejectedAttempt` | speg/peg.go:116-125 | enter, set and exit restore the caller's stack exactly, except that the caller's committed flag is cleared; the failure map is untouched; `ToBoolean` then reports false |
| `Speg.AcceptedAttempt` | speg/peg.go:98-145 | enter, a global set, commit and exit leave exactly the stack the accept path gives, with the frames below the caller's and the failure map untouched; `Get` then finds the value set inside the attempt, and `ToBoolean` reports true |
| `Frames.Lookup` | speg/peg.go:98-105 | the lookup yields either the default or the value some frame binds the key to |
| `Frames.EnterFrames` | speg/peg.go:116-121 | entering grows the stack by exactly one frame: the lower frames are kept, the old top has its committed flag cleared, and the new top is a bare checkpoint at the old top's offset, line and column |
| `Frames.ExitFrames` | speg/peg.go:123-125 | the stack loses its top frame and every other frame is kept |
| `Frames.SetFrames` | speg/peg.go:107-109 | only the top frame's bindings change, gaining (value, flag) at the key; its offset, line, column and committed flag and all lower frames are kept |
| `Frames.FoldGlobals` | speg/peg.go:131-139 | folding the child's keys so far: the parent map gains exactly the global keys, each with the child's value, and keeps every other parent binding |
| `Frames.CommitFrames` | speg/peg.go:127-145 | the parent takes the child's offset, line and column, becomes committed and gets `CommitVars` as its bindings; the child and the lower frames are kept; the height is unchanged |
| `Frames.LookupInnermost` | speg/peg.go:98-105 | when frame i binds the key and no higher frame does, the lookup yields frame i's value |
| `Frames.LookupUnbound` | speg/peg.go:98-105 | when no frame binds the key, the lookup yields the default |
| `Frames.LookupCases` | speg/peg.go:98-105 | either no frame binds the key and the result is the default, or there is an innermost binder and the result is its value |
| `Frames.LookupSameBindings` | speg/peg.go:98-105 | the lookup depends only on the frames' bindings, not on their positions or committed flags |
| `Frames.CommitVars` | speg/peg.go:131-139 | every global child binding reaches the parent with the child's value; an existing parent binding keeps its flag and a new one is flagged global; non-global child bindings are not copied; parent keys that are not global in the child are unchanged |
| `Frames.FoldGlobalsStep` | speg/peg.go:131-139 | folding one more child key changes the parent map only at that key, and only when that key is global |
| `Frames.EnterKeepsLookup` | speg/peg.go:116-121 | entering a checkpoint does not change what any key looks up to |
| `Frames.SetThenLookup` | speg/peg.go:107-109 | a lookup right after a set of the key yields the value just set |
| `Frames.SetKeepsOtherLookups` | speg/peg.go:107-109 | a set does not change what any other key looks up to |
| `Frames.AcceptLookup` | speg/peg.go:127-145 | after commit and exit, a key global in the child looks up to the child's value; every other key looks up as if the child had been discarded |
| `Frames.AcceptAdvancesParent` | speg/peg.go:141-144 | after commit and exit, the new top has the child's offset, line and column and is committed |
| `Frames.GlobalSurvivesAccept` | speg/peg.go:131-139 | a binding set global inside an accepted attempt is visible after it |
| `Frames.LocalDroppedOnAccept` | speg/peg.go:131-139 | a binding set non-global inside an accepted attempt is not visible after it; lookups are as before the attempt |
| `Frames.Run` | speg/peg.go:116-145 | any action, including nested accepted or rejected attempts, keeps the stack height and every frame below the top unchanged |
| `Frames.RunAll` | speg/peg.go:116-145 | a sequence of actions keeps the stack height and every frame below the top unchanged |
| `Frames.RejectRestores` | speg/peg.go:116-125 | whatever a rejected attempt's body does, the stack afterwards equals the stack before, except that the top's committed flag is cleared |
| `Frames.RejectKeepsLookup` | speg/peg.go:98-125 | after a rejected attempt every key looks up to what it did before the attempt |
| `Frames.AttemptReportsAccept` | speg/peg.go:116-149 | after an attempt, the top frame's committed flag (what `toBoolean` reads) is true exactly when the attempt was accepted |
| `Report.Excerpt` | speg/peg.go:92 | at most four characters; exactly the four at the offset when that many remain; otherwise what is left of the input from the offset, or nothing past the end |
| `Report.FailureMessage` | speg/peg.go:91-93 | a given message is kept as is; otherwise it is "expected <expr>, found <excerpt>" |
| `Report.ParseError.Error` | speg/peg.go:22-24 | the text is "parse error <msg> on line <L>, column <C>, offset <O>, content: <text>", where L, C and O each read back as the line, column and offset |
| `Decimal.IntToString` | speg/peg.go:23 | a minus sign exactly for negative numbers, followed by decimal digits only |
| `Decimal.NatToString` | speg/peg.go:23 | a non-empty string of decimal digits with no leading zero |
| `Decimal.NatToStringRoundTrip` | speg/peg.go:23 | the digits of n denote n |
| `Decimal.IntToStringRoundTrip` | speg/peg.go:23 | parsing the rendering of any integer, negative ones included, gives that integer back |

## Left out

- `_call` (speg/peg.go:60-70) and `not` (speg/peg.go:111-114): they depend on Go's `regexp` compiler and matcher, a library outside the model. As written, `_call` only fills the cache and never matches or advances. The pattern cache `reCache` is left out with them. No modelled operation advances the offset, line or column.
- `_repr` (speg/peg.go:72-81): a debug string helper with no behaviour to verify.
- Number formatting: `ParseError.Error` renders integers with `IntToString`, which follows Go's `%d` for integers. No other Go formatting is modelled.
- The panic/recover mechanism itself: `_error` returns `Outcome.Failure` instead of unwinding.
- Furthest-failure selection and final error reporting: the source keeps only the per-offset failure map, and the model keeps the same.
- Report.Excerpt: offsets, the input length (`len(p.s)` in `_eof`) and the four-unit excerpt count characters, where Go counts bytes. For input with multi-byte characters the model's excerpt can be longer than Go's, and the model cannot split a character as Go's byte slice can.
- Speg.Peg.Exit: requires at least two frames. The Go method has an empty body and no precondition, but as a pop it must not empty the stack that every other operation indexes.
