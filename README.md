# Job: the unit of work of the docker engine

This project models the `Job` type of the docker engine (`engine/job.go`) in Dafny and proves
properties of that model. A job has a name, arguments, an environment and a string status.
The status is `"0"` for success; any other string is the failure reason.

- **Environment store** (module `EnvStore`, class `Engine.Job`). The environment is an
  append-only sequence of raw `key=value` entries. `Setenv` appends an entry.
  `Getenv` scans the entries oldest first and keeps the value of every entry whose
  before-the-first-`=` text is the key, so the last write wins. `Environ` replays the entries into a map.
  `EnvStore.Lookup` is the reference meaning of a read: it scans from the newest entry back.
  The imperative `Getenv` and `Environ` loops are proved against it.
  The object invariant `Valid()` says that every entry holds a `=`. This holds because entries are only
  added by `Setenv`. It is why `Environ` can take the second part of every split entry.
  The branch of `Getenv` for an entry that holds `=` but splits into fewer than two parts is
  proved unreachable.
- **Typed boolean accessors.** `GetenvBool` reads a value as false exactly when, trimmed of spaces
  and tabs and lower-cased, it is `""`, `"0"`, `"no"`, `"false"` or `"none"`. `SetenvBool` writes `"1"` or `"0"`.
- **Execution status** (`Engine.Job.Run`). A missing handler gives the status `"command not found"`.
  The run fails, with the error text `name: status`, exactly when the status is not `"0"`.
- **Display** (module `Display`). `Describe` is `Job.String`: `owner.name(args)` with a
  ` = OK (0)` or ` = ERR (status)` suffix once the status is non-empty.
  `LogLine` is the line that `Logf` formats: `[description] format`, with all trailing newlines of the
  format replaced by exactly one.
- **Go string functions** (module `GoStrings`). `strings.Index`, `SplitN(…, 2)`, `Trim`, `TrimLeft`,
  `TrimRight`, `ToLower` and `Join` are each specified by what they compute, as far as the job code uses them.
  For `Trim` this is stated by `TrimSlice` (the result is a contiguous slice with only cutset characters
  around it), and for `Join` by `JoinAppend` and `JoinElements` (the elements in order, separated by `sep`).

Behaviour worth knowing, proved here:
- Last-write-wins is usually stated for every key, but the code gives it only for keys that hold
  no `=` (`EnvStore.LookupAfterSetenv`).
  A key holding `=` is stored, but no read under that key ever finds it: such a read always gives `""`
  (`EnvStore.LookupKeyWithSeparator`). Instead, the write shows up under the part of the key before its
  first `=` (`EnvStore.SetenvKeyWithSeparator`).
- The boolean rule trims only spaces and tabs (engine/job.go:92), not other whitespace such as
  newlines: `"no\n"` reads as true (`EnvStore.NewlineNotTrimmed`).
- A handler that returns `""` leaves the job displayed exactly like a job that has not run.
  The description otherwise determines the status (`Display.DescribeDeterminesStatus`).

The files are `wrappers.dfy` (Option), `gostrings.dfy`, `envstore.dfy`, `display.dfy` and
`job.dfy` (the `Job` class).

## Model

| member | source | states |
|---|---|---|
| `GoStrings.Index` | engine/job.go:75 | the result is -1 exactly when `=` is absent; otherwise it is the character position of the first `=` (Go gives a byte offset; the two agree on ASCII text, and the job code only compares the result with -1) |
| `GoStrings.SplitN` | engine/job.go:78 | two parts exactly when the entry holds the separator, one part (the entry itself) otherwise; the first part holds no separator, and part one, the separator and part two rebuild the entry |
| `GoStrings.SplitNJoin` | engine/job.go:78 | the entry `k=v` with `k` free of `=` splits back into exactly `[k, v]` |
| `GoStrings.SplitNInsideKey` | engine/job.go:78 | the entry `k=v` with `=` inside `k` splits inside `k`; its first part is not `k` |
| `GoStrings.Trim` | engine/job.go:92 | the result is empty exactly when the value consists of spaces and tabs only; otherwise it neither starts nor ends with one |
| `GoStrings.TrimSlice` | engine/job.go:92 | the trimmed value is the slice of the value starting at some position `i`; everything before `i` and everything after the slice is a cutset character |
| `GoStrings.TrimLeft` | engine/job.go:92 | the result is the longest suffix that does not start with a cutset character; everything cut is in the cutset |
| `GoStrings.TrimRight` | engine/job.go:199 | the result is the longest prefix that does not end with a cutset character; everything cut is in the cutset |
| `GoStrings.TrimPadding` | engine/job.go:92 | cutset characters added on either side do not change the trimmed result |
| `GoStrings.ToLower` | engine/job.go:92 | same length, every character lowered in place (ASCII) |
| `GoStrings.ToLowerIdempotent` | engine/job.go:92 | lower-casing twice equals lower-casing once |
| `GoStrings.TrimToLower` | engine/job.go:92 | trimming spaces and tabs commutes with lower-casing |
| `GoStrings.Join` | engine/job.go:57 | empty for no arguments; otherwise it starts with the first argument, and its length is the arguments' total length plus one separator between each neighbouring pair |
| `GoStrings.JoinAppend` | engine/job.go:57 | joining two non-empty runs of arguments is joining each run and putting the separator between the two |
| `GoStrings.JoinElements` | engine/job.go:57 | the join of two or more arguments is the join of all but the last, the separator, then the last argument |
| `EnvStore.EntrySplits` | engine/job.go:125-127 | the entry `Setenv` writes holds `=`, and its key and value read back as written when the key holds no `=` |
| `EnvStore.SetenvKeepsWellFormed` | engine/job.go:125-127 | appending a `Setenv` entry keeps every entry holding `=` |
| `EnvStore.LookupIsLastMatch` | engine/job.go:73-89 | a read gives the value of the last entry that holds `=` and whose key is the key read |
| `EnvStore.LookupNoMatch` | engine/job.go:73-89 | a read gives `""` when no entry matches |
| `EnvStore.LookupOutsideKeys` | engine/job.go:73-89 | a key outside the set of entry keys reads as `""` |
| `EnvStore.LookupAfterSetenv` | engine/job.go:125-127 | right after `Setenv(k, v)` with `k` free of `=`, a read of `k` gives `v`, whatever was written before |
| `EnvStore.LookupOtherKeyAfterSetenv` | engine/job.go:125-127 | `Setenv(k, v)` with `k` free of `=` leaves the read of every other key unchanged |
| `EnvStore.LastWriteWins` | engine/job.go:125-127 | after two writes to one key free of `=`, the second is read and the first is still stored in place |
| `EnvStore.LookupKeyWithSeparator` | engine/job.go:73-89 | a key holding `=` always reads as `""`, whatever the entries are |
| `EnvStore.SetenvKeyWithSeparator` | engine/job.go:125-127 | `Setenv(k, v)` with `=` inside `k` is read under the part of `k` before its first `=`, with the rest of `k` prefixed to the value |
| `EnvStore.FalsyIgnoresPadding` | engine/job.go:92 | spaces and tabs around a value do not change its boolean reading |
| `EnvStore.FalsyIgnoresCase` | engine/job.go:92 | a value and its lower-case form have the same boolean reading |
| `EnvStore.NewlineNotTrimmed` | engine/job.go:92 | only spaces and tabs are trimmed: `"no\n"` does not read as false |
| `EnvStore.DigitFalsy` | engine/job.go:99-105 | `"0"` reads as false and `"1"` as true |
| `EnvStore.BoolRoundTrip` | engine/job.go:99-105 | what `SetenvBool(k, b)` writes reads back as `b` when `k` holds no `=` |
| `Display.Describe` | engine/job.go:56-71 | starts with the call form `owner.name(args)`; equals it exactly when the status is empty; ends in ` = OK (0)` for status `"0"` and in ` = ERR (status)` for any other status |
| `Display.DescribeDeterminesStatus` | engine/job.go:58-69 | two descriptions of the same call are equal only when the statuses are equal |
| `Display.LogLine` | engine/job.go:198-199 | starts with `[description] `; its body is the format with its trailing newlines removed and nothing else; it ends in exactly one newline |
| `Display.LogLineIgnoresTrailingNewlines` | engine/job.go:199 | newlines appended to the format do not change the line |
| `Engine.Job.constructor` | engine/job.go:24-34 | a new job has an empty environment and an empty status |
| `Engine.Job.Setenv` | engine/job.go:125-127 | the environment becomes the old one with exactly `key=value` appended; the invariant that every entry holds `=` is kept |
| `Engine.Job.Getenv` | engine/job.go:73-89 | the forward scan returns what the reference read `Lookup` gives |
| `Engine.Job.Environ` | engine/job.go:189-196 | the map's keys are exactly the entry keys, and under each key it holds what `Getenv` reads |
| `Engine.Job.GetenvBool` | engine/job.go:91-97 | the result is the negation of the boolean rule `EnvStore.Falsy` applied to what `Getenv` reads: false exactly when that value, trimmed of spaces and tabs and lower-cased, is `""`, `"0"`, `"no"`, `"false"` or `"none"` |
| `Engine.Job.SetenvBool` | engine/job.go:99-105 | appends `key=1` for true and `key=0` for false |
| `Engine.Job.Run` | engine/job.go:39-53 | the status becomes the handler's result, or `"command not found"` without a handler; an error exactly when the status is not `"0"`, with the text `name: status` |
| `Engine.Job.LogLine` | engine/job.go:198-199 | the line `Logf(format)` writes for this job starts with `[`, the job's description and `] `, and ends in exactly one newline |
| `Engine.Job.String` | engine/job.go:56-71 | the description starts with the call form and equals it exactly when the status is empty |

## Left out

- `DecodeEnv`, `EncodeEnv`, `ExportEnv` and `ImportEnv` (engine/job.go:129-187) are not modelled. They are thin
  wrappers over Go's `encoding/json` and reflection, whose behaviour is not part of this model.
  `DecodeEnv` also visits a Go map in unspecified order.
- `GetenvList` and `SetenvList` (engine/job.go:107-123) are not modelled. Their round trip rests entirely on `json.Marshal` and
  `json.Unmarshal`, which are not part of this model.
- The write of `Logf` to `Stdout` and the expansion of `args` through `fmt` directives are not modelled. This is I/O and `fmt`
  verb semantics. As a result, a `%` in the description or format is not interpreted.
- The `Stdin`, `Stdout` and `Stderr` streams are not modelled, nor are the `Logf("{")` and `Logf("}")` calls made around the
  handler in `Run`. These are I/O.
- The engine that owns a job is represented only by its display string. The `Engine` type is not part of this model.
- The handler is represented by the status it returns (`Option<string>`). Its body and any changes it makes to the job are not
  modelled.
- `Engine.Job.Run` is modelled running once. A repeated run gives the same status, because the modelled handler is a fixed value.
- `GoStrings.ToLower` lower-cases ASCII letters only. Unicode case folding is not modelled.
- `Name`, `Args`, the owner and the handler are constant fields. The job code never reassigns them.
- How the engine creates a job is not part of this model. The constructor starts every job with an empty environment.
- `GoStrings.Index` returns a character position, where Go's `strings.Index` returns a byte offset. The two agree on
  ASCII text, and the job code only compares the result with -1.
