# twitch bot commands, modelled in Dafny

This project models the `bot commands` subcommands of the `twitch` command
tree. They maintain Streamlabs Cloudbot `!command` definitions by forwarding
chat commands to a `chat` program:

- `add` sends `!addcommand`.
- `remove` sends `!rmcommand`.
- `edit` sends `!editcommand`.
- `sync` takes a command body from a YAML file and hands it to `edit`.
- `list` prints the keys of that YAML file on one line.
- `file` prints the path of that YAML file, and can also open it in an editor.

Each handler's `Call` body is a pure function (module `Twitch`). Its inputs
are the argument list and what the world outside would supply:

- the configured `file` path, where an empty string means it is not set;
- the YAML query engine, as a function from an expression and a path to a
  result or an error;
- the line splitter `to.Lines`, as a function from a buffer to lines.

Each handler returns an `Outcome`. An outcome is the sequence of effects the
handler asks for, in order, and a status: success, or one of these errors:

- a usage error;
- missing configuration;
- a query error, passed on unchanged;
- the size-limit error;
- the index-out-of-range panic that `args[0][0]` raises on an empty name.

An effect is one of four things:

- an argument vector handed to the `chat` program;
- a line printed to standard output;
- the editor opened on a path;
- the body-length log line.

Go strings are byte strings. Module `Bytes` models a byte as the character
with that code (`type byte = c: char | c as int < 256`). It defines
`strings.Join`, and `strings.Replace(s, old, new, -1)` as a left-to-right
scan that never overlaps two matches.

Module `Sorting` defines Go's string order: byte-wise lexicographic, with a
proper prefix first. It models `sort.Strings` twice:

- `Sort`, a pure insertion sort;
- `SortInPlace`, an insertion sort on an array, proved to give `Sort`'s
  result.

`OrderedPermutationUnique` proves that a list of strings has only one
ordered permutation. So `Sort` gives exactly what any correct sort gives,
including Go's unstable one.

The main result is `Twitch.ListPrintsSortedKeys`. A `keys` query yields one
`- key` line per key. When no key contains `- ` or ends in `-`, the line
`list` prints is `!` followed by the keys in ascending byte order, joined by
` !`.

`sync`'s error message says "380 bytes or less", but its guard refuses a
body of exactly 380 bytes. The model follows the guard: 379 bytes are
accepted and 380 bytes are refused (`SyncSizeBoundary`).

The `sync` command declares exactly one argument in its usage line. But the
framework only demands at least one (`MinArgs: 1`), and the body reads only
`args[0]`. The model follows the code: `Sync` requires `|args| >= 1` and
ignores any further arguments.

## Model

| member | source | states |
|---|---|---|
| `Bytes.Join` | twitch.go:57 | `strings.Join` (also at twitch.go lines 90 and 145): a non-empty join starts with the first part, and with two or more parts the first part is followed by the separator; its length and how it splits are `JoinLength` and `JoinAppend` |
| `Bytes.JoinAppend` | twitch.go:57 | joining a concatenation of two non-empty part lists is joining each and putting one separator between them |
| `Bytes.JoinLength` | twitch.go:57 | the length of the joined string is the parts' total length plus one separator length per adjacent pair |
| `Bytes.Replace` | twitch.go:146 | `strings.Replace(s, old, new, -1)` with a non-empty pattern: a replacement no longer than the pattern never lengthens the string, and one of the same length keeps its length; what it replaces is `ReplaceSelf`, `ReplaceAppend` and `ReplaceAbsent` |
| `Bytes.ReplaceSelf` | twitch.go:146 | replacing a pattern by itself leaves any string unchanged |
| `Bytes.ReplaceAppend` | twitch.go:146 | when no occurrence of the pattern starts inside `a`, replacing in `a + b` keeps `a` and replaces only in `b` (left-to-right, non-overlapping scan) |
| `Bytes.ReplaceAbsent` | twitch.go:146 | a string that does not contain the pattern is unchanged |
| `Sorting.LessEq` | twitch.go:144 | Go's `<=` on strings, byte-wise lexicographic: a prefix of a string is at most that string; that it is a total order is the five lemmas below |
| `Sorting.LessEqReflexive` | twitch.go:144 | Go's string order is reflexive |
| `Sorting.LessEqTotal` | twitch.go:144 | any two strings are comparable |
| `Sorting.LessEqAntisymmetric` | twitch.go:144 | strings that are each at most the other are equal |
| `Sorting.LessEqTransitive` | twitch.go:144 | the order is transitive |
| `Sorting.LessEqCommonPrefix` | twitch.go:144 | a common prefix does not change how two strings compare, in both directions |
| `Sorting.Insert` | twitch.go:144 | inserting adds exactly the new element to the multiset; that it keeps a list ordered is `InsertKeepsSorted` |
| `Sorting.InsertKeepsSorted` | twitch.go:144 | inserting into an ordered list gives an ordered list |
| `Sorting.Sort` | twitch.go:144 | the model of `sort.Strings`: its result is a permutation of its input; that it is ordered is `SortIsOrdered`, and that it is the only ordered permutation is `OrderedPermutationUnique` |
| `Sorting.SortIsOrdered` | twitch.go:144 | `Sort` yields an ordered list |
| `Sorting.OrderedPermutationUnique` | twitch.go:144 | two ordered permutations of the same strings are equal, so any correct sort agrees with `Sort` |
| `Sorting.SortIsTheSort` | twitch.go:144 | every ordered permutation of the input is `Sort` of the input |
| `Sorting.SwapDown` | twitch.go:144 | swaps two adjacent slots, changes nothing else and keeps the multiset |
| `Sorting.SwapKeepsPrefix` | twitch.go:144 | swapping two adjacent slots below `n` keeps the multiset of the first `n` elements and everything from `n` on |
| `Sorting.SinkInto` | twitch.go:144 | moving `a[i]` down into the ordered prefix `a[..i]` leaves `a[..i+1]` ordered and a permutation of what it was, leaves `a[i+1..]` untouched and keeps the multiset of the whole array |
| `Sorting.SortInPlace` | twitch.go:144 | `sort.Strings` in place: the array afterwards is `Sort` of its old contents |
| `Twitch.Norm` | twitch.go:71-73 | the normalised name starts with `!` and is either the name itself or the name with `!` prepended |
| `Twitch.NormFixesBangNames` | twitch.go:87-89 | a name is left unchanged if and only if it already starts with `!` |
| `Twitch.NormIdempotent` | twitch.go:71-73 | normalising twice is normalising once |
| `Twitch.NormCollision` | twitch.go:71-73 | two names normalise alike if and only if they are equal, or one is the other (not starting with `!`) with `!` prepended |
| `Twitch.Add` | twitch.go:53-59 | succeeds if and only if there are at least two arguments, otherwise a usage error with no effect; on success forwards `!addcommand`, `args[0]` verbatim and the rest joined by spaces |
| `Twitch.Remove` | twitch.go:67-75 | no arguments: usage error; empty name: panic; otherwise forwards `!rmcommand` and the normalised name, other arguments ignored |
| `Twitch.Edit` | twitch.go:83-92 | no arguments: usage error; empty name: panic; otherwise forwards `!editcommand`, the normalised name and the rest joined by spaces |
| `Twitch.Sync` | twitch.go:100-114 | empty path: missing `file` before any query; query `"." + args[0]` fails: that error unchanged; body of 380 bytes or more: size-limit error; otherwise logs the body length, then does what `edit` does with the raw key and the body |
| `Twitch.File` | twitch.go:121-127 | never fails; opens the editor on the path if and only if the first argument is `edit`; always prints the path last, even an empty one; does nothing else, so there are two effects with `edit` and one without |
| `Twitch.ListText` | twitch.go:143-147 | the printed line always starts with `!`; with no lines it is exactly `!` |
| `Twitch.List` | twitch.go:134-149 | empty path: missing `file`; `keys` query fails: that error unchanged; otherwise prints exactly one line, `ListText` of the split query result |
| `Twitch.FailuresForwardNothing` | twitch.go:53-149 | whenever `add`, `remove`, `edit`, `sync` or `list` fails, nothing was handed to the `chat` program |
| `Twitch.RemoveIgnoresBang` | twitch.go:71-74 | `remove` with `foo` and with `!foo` forward the same vector, `["!rmcommand", "!foo"]` |
| `Twitch.EditIgnoresBang` | twitch.go:87-91 | `edit` with `foo` and with `!foo` behave identically |
| `Twitch.AddDoesNotNormalize` | twitch.go:57-58 | `add` forwards a name without `!` as given, where `edit` prepends `!` |
| `Twitch.EditNameOnly` | twitch.go:90-91 | `edit` with a name alone succeeds and forwards an empty body |
| `Twitch.BodyJoinsWords` | twitch.go:57 | one more body word adds exactly one space and that word to the forwarded body |
| `Twitch.SyncChecksInOrder` | twitch.go:101-110 | missing configuration is reported before any query, a query error before the size check, and the size-limit error happens if and only if the body has 380 bytes or more |
| `Twitch.SyncSizeBoundary` | twitch.go:109-113 | a 379-byte body is logged and forwarded as `["!editcommand", norm(key), body]`; a 380-byte body is refused |
| `Twitch.SyncDelegatesToEdit` | twitch.go:112-113 | a successful `sync` logs the body length, then forwards `!editcommand`, the normalised raw key and the body exactly as the query returned it |
| `Twitch.InsertMarked` | twitch.go:144 | inserting a `- `-marked key into marked keys is marking the result of inserting the key |
| `Twitch.SortMarked` | twitch.go:144 | sorting the `- key` lines gives the sorted keys, each marked |
| `Twitch.KeyPassesStrip` | twitch.go:146 | removing `- ` passes over a key that contains no `- ` and does not end in `-` |
| `Twitch.StripLastLine` | twitch.go:146 | removing `- ` from the last marked line leaves its key |
| `Twitch.StripInnerLine` | twitch.go:145-146 | removing `- ` from a marked line followed by ` !` leaves the key and the separator and continues after them |
| `Twitch.JoinMarkedCons` | twitch.go:145 | joining marked lines is the first marked line, ` !`, then the rest joined |
| `Twitch.StripMarkedCons` | twitch.go:145-146 | the inductive step: one more plain key in front keeps stripped-joined-marked equal to joined |
| `Twitch.StripMarked` | twitch.go:145-146 | removing every `- ` from the ` !`-joined marked lines gives the ` !`-joined keys |
| `Twitch.ListPrintsSortedKeys` | twitch.go:143-147 | for one `- key` line per plain key, `list` prints `!` followed by the keys in ascending byte order joined by ` !`; those keys are an ordered permutation of the given keys |
| `Twitch.RemoveInPlace` | twitch.go:67-75 | the handler as written: returns what `Remove` returns and overwrites `args[0]` with the normalised name only when it succeeds |
| `Twitch.EditInPlace` | twitch.go:83-92 | the handler as written: returns what `Edit` returns and overwrites `args[0]` with the normalised name only when it succeeds |
| `Twitch.ListInPlace` | twitch.go:134-149 | the handler as written, sorting the lines in place and reassigning the buffer: returns exactly what `List` returns |
| `Twitch.RemoveExample` | twitch.go:71-74 | `remove foo` and `remove !foo` both forward `["!rmcommand", "!foo"]` |
| `Twitch.EditExample` | twitch.go:87-91 | `edit foo a b` forwards `["!editcommand", "!foo", "a b"]` |
| `Twitch.AddEmptyBodyExample` | twitch.go:54-58 | `add name ""` succeeds and forwards `["!addcommand", "name", ""]` |
| `Twitch.ListExample` | twitch.go:143-147 | keys `b`, `a` listed as `- b`, `- a` print `!a !b` |

## Left out

- The `chat` subcommand (twitch.go:25-33) is not modelled. This includes `bonzai.ArgsOrIn`, which is not part of this model, how it joins the arguments or reads standard input, and running the external `chat` program. A handler's result is the argument vector it hands to `chat.Call`. Whatever `chat.Call` returns (the external program's failure) is not modelled.
- The command tree, name and alias dispatch, help, and the framework's `MinArgs: 1` check for `sync` (twitch.go:15-46, twitch.go:99) belong to the bonzai framework. `Sync` takes `|args| >= 1` as a precondition. The `rm` alias that `edit` shares with `remove` is a dispatch question and is not modelled.
- `yq.EvaluateToString` is a foreign YAML engine. It is a function parameter of `Sync` and `List`, and the model states which expression each handler asks it for.
- `to.Lines` is foreign. It is a function parameter of `List`. Under `ListPrintsSortedKeys`, the lines are assumed to be `- key` lines.
- `x.Caller.Q("file")` and `MissingConfig` are framework configuration lookups. The path is a plain input; `file` reads it twice, and both reads are assumed to agree.
- The effects are returned as values and not performed. They are the editor (`file.Edit`), standard output (`fmt.Println`, whose trailing newline is not modelled) and the log (`x.Log`, modelled by the length it reports).
- A Go panic is not an error value: it crashes the program. The model reports it as the status `IndexPanic`. `sync` with an empty key keeps the log effect that happened before the panic.
- Replace: as in Go, `strings.Replace` is only ever called with the non-empty pattern `- `. Go's behaviour for an empty pattern (inserting the replacement between characters) is not modelled, so `Replace` requires a non-empty pattern.
- `SizeLimit` carries the error text as a Dafny string, because its length is never measured.
