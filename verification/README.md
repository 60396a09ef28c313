# projector — a Dafny model of its core

`projector` is a small command-line tool that keeps key/value pairs per
directory. A lookup made from a working directory (`pwd`) sees the pairs of
that directory and of all its ancestors. Nearer directories override farther
ones. This project models the tool's two pieces of pure logic and proves
their properties:

- **Resolution and mutation** (`src/projector.rs`). The store maps each
  directory to a flat `String → String` scope. `get_value_all` overlays the
  scopes along the ancestor chain of `pwd`, from the root down.
  `get_value` walks from `pwd` up and stops at the first scope that holds
  the key. `set_value` writes into the scope of exactly `pwd`, creating the
  scope if needed. `remove_value` deletes from that scope and does nothing
  when the scope is absent. `from_config` falls back to an empty store.
- **Argument classification** (`src/config.rs`). `Operation::try_from`
  turns the positional arguments into `Print(None)`, `Print(Some k)`,
  `Add(k, v)` or `Remove(k)`, or into an arity error.

## Layout

- `optional.dfy`, module `Optional`: `Option` and `Result`.
- `paths.dfy`, module `Paths`. A path is `seq<string>` of components, with
  the root as `[]`. `Parent(p)` is `p[..|p|-1]`, and the root has no parent.
  `AncestorChain` is the source's walk-up loop.
- `projector.dfy`, module `Projector`. It holds the store, the scope and the
  `Projector` record, and the specification of resolution. That
  specification is `Resolves`: the value in the nearest ancestor
  (inclusive) whose scope holds the key, or `None`. It also holds the two
  lookups as pure functions (`Lookup`, `Overlay`/`Merged`), the source's
  loops as methods (`GetValue`, `GetValueAll`), and the operations
  `SetValue`, `RemoveValue` and `FromConfig`.
- `projector_laws.dfy`, module `ProjectorLaws`. It proves the laws relating
  these operations, plus the unit-test scenarios.
- `config.dfy`, module `Config`: `Operation`, `ParseOperation` and its
  inverse `Render`.

A `Path` is the component list that Rust's `Path::components` produces.
`parent()`, `==` and hashing of a `PathBuf` all work on that list. So
repeated and trailing separators are already gone, and so is every `.`
except the leading one of a relative path: `/foo/./bar` is `["foo", "bar"]`.
The Rust code resolves neither `..` nor symlinks, so `..` stays an ordinary
component and the model claims no further normalisation.

One consequence of the classifier is proved in `Config.CommandWordAloneIsError`.
No argument list can print the value of a key named `add` or `rm`: a lone
`add` or `rm` is always an arity error.

## Model

| member | source | states |
|---|---|---|
| Paths.Parent | src/projector.rs:23 | the root, and only the root, has no parent; a parent is one component shorter and is an ancestor |
| Paths.AncestorChain | src/projector.rs:18-24 | the walk-up loop yields `pwd` first, the root last, and the entry at index `i` is `pwd` minus its last `i` components (one more entry than `pwd` has components) |
| Paths.ChainMembers | src/projector.rs:18-24 | the chain contains exactly the ancestors of `pwd`, `pwd` included; for the root it is the single element `[root]` |
| Projector.Lookup | src/projector.rs:37-52 | walking up returns the value from the nearest ancestor (inclusive) whose scope holds the key, and `None` exactly when no ancestor's scope holds it |
| Projector.Overlay | src/projector.rs:26-32 | extending the output with the scopes root first leaves each key bound to its value in the deepest of those scopes that holds it |
| Projector.Merged | src/projector.rs:17-35 | every key of the overlay of all ancestor scopes resolves as nearest-wins, and keys no ancestor holds are absent |
| Projector.GetValueAll | src/projector.rs:17-35 | the two loops (collect the chain, then extend from the root down) produce the nearest-wins overlay for every key |
| Projector.GetValue | src/projector.rs:37-52 | the walk-up loop with `break` returns the nearest ancestor's value or `None`, the same as `Lookup` |
| Projector.SetValue | src/projector.rs:54-60 | only the scope at exactly `pwd` changes; that scope is created if missing, binds the key to the value, and keeps its other keys |
| Projector.RemoveValue | src/projector.rs:62-69 | no scope is created or dropped; only the scope at `pwd` changes, losing the key and keeping the others |
| Projector.FromConfig | src/projector.rs:83-98 | the decoded store is used when the file exists, reads and decodes; otherwise the store is the empty map, so every lookup is `None` |
| ProjectorLaws.LookupAgreeBelow | src/projector.rs:41-48 | a lookup that finds the key deeper than some depth depends only on the key's bindings deeper than that depth |
| ProjectorLaws.LookupAgree | src/projector.rs:41-48 | `get_value` depends only on the bindings of the key in the ancestors' scopes |
| ProjectorLaws.Consistency | src/projector.rs:17-52 | for every key, `get_value` equals the `get_value_all` overlay's entry, or `None` when the overlay lacks the key |
| ProjectorLaws.MergedDomain | src/projector.rs:26-32 | the overlay's keys are exactly the union of the ancestor scopes' keys |
| ProjectorLaws.SetThenGet | src/projector.rs:54-60 | after `set_value(k, v)`, `get_value(k)` from `pwd` is `Some(v)` |
| ProjectorLaws.SetValueInherited | src/projector.rs:54-60 | a descendant of `pwd` with no nearer binding of `k` now resolves `k` to `v` |
| ProjectorLaws.SetValueNonInterference | src/projector.rs:54-59 | after a write, lookups of other keys are unchanged everywhere; lookups of `k` are unchanged from directories not at or below `pwd`, and from directories below `pwd` that a binding deeper than `pwd` shadows |
| ProjectorLaws.SetValueMerged | src/projector.rs:54-60 | `get_value_all` after `set_value(k, v)` is the previous overlay with `k` bound to `v` |
| ProjectorLaws.RemoveFallsThrough | src/projector.rs:62-65 | after `remove_value(k)`, `get_value(k)` from `pwd` is the parent's lookup of `k`, or `None` at the root |
| ProjectorLaws.RemoveNonInterference | src/projector.rs:62-65 | after a removal, lookups of other keys are unchanged everywhere; lookups of `k` are unchanged from directories not at or below `pwd`, and from directories below `pwd` that a binding deeper than `pwd` shadows |
| ProjectorLaws.RemoveWithoutScope | src/projector.rs:63-68 | without a scope at `pwd`, removal is a no-op and creates no scope (unlike `entry().or_default()`) |
| ProjectorLaws.RemoveIdempotent | src/projector.rs:62-65 | removing a key twice gives the same projector as removing it once |
| ProjectorLaws.EmptyScopeIsAbsent | src/projector.rs:42-43 | an empty scope and an absent scope give the same lookups |
| ProjectorLaws.GetValueExamples | src/projector.rs:129-140 | from `/foo/bar`: `foo` is `bar3`, `bar` is `bazz`, and `notehu` is `None` |
| ProjectorLaws.SetValueExample | src/projector.rs:142-153 | setting `foo` to `hello, fem` in `/foo/bar` is read back there |
| ProjectorLaws.RemoveValueExample | src/projector.rs:155-166 | removing `foo` in `/foo/bar` exposes `/foo`'s value `bar2` |
| Config.ParseOperation | src/config.rs:38-78 | each result pins the input: `Add` and `Remove` come only from `["add",k,v]` and `["rm",k]`; `Print(None)` only from `[]`; `Print(Some k)` only from `[k]` with `k` not `add` or `rm`; every error has at least one argument and reports `len-1` after `add`/`rm` and `len` otherwise |
| Config.ParseRender | src/config.rs:38-78 | every operation except printing the key `add` or `rm` is parsed back from its rendered argument list |
| Config.RenderParse | src/config.rs:38-78 | an accepted argument list is exactly the rendering of the operation it yields, so the parse is injective |
| Config.CommandWordAloneIsError | src/config.rs:46-67 | a lone `add` or `rm` is an error that reports 0 arguments, and no input prints the key `add` or `rm` |
| Config.ErrorCases | src/config.rs:41-74 | an input is rejected if and only if it is non-empty and has the wrong length for its head; the count is `len-1` after `add`/`rm` and `len` otherwise |
| Config.ParseExamples | src/config.rs:109-162 | `[]`, `["foo"]`, `["add","foo","bar"]` and `["rm","foo"]` classify as the tests expect |

## Left out

- `Projector::save` (src/projector.rs:71-81): it writes the file and creates
  parent directories. That is filesystem I/O and JSON encoding.
- `Projector::from_config`: the filesystem check, the read and the
  `serde_json` decoding are not modelled. Their outcome is the parameter
  `ConfigFile`: missing, unreadable, or read with the decoder's result.
  Only the fallback policy is modelled.
- `get_config` and `get_pwd` (src/config.rs:81-101): they read an
  environment variable and the process's current directory.
- `TryFrom<Opts> for Config` (src/config.rs:12-26): this is glue. The
  `opts` module it depends on is not part of this model.
- `main` in src/bin/projector.rs: argument parsing, printing and JSON
  output are dispatch glue.
- Error message text. The `anyhow!` messages are modelled as `ArityError`,
  which keeps the operation and the reported count. The wording is not
  modelled.
- `HashMap` iteration order and the borrowed-reference result of
  `get_value_all`. The result is a `map<string, string>` of values.
- Turning a path string into its component list, which `Path::components`
  does. The model starts from the component list, and `..` is not resolved
  because the code does not resolve it. The model also does
  not distinguish absolute from relative paths. Rust's `/` and `""` both
  have no parent, and both are the root `[]` here.
- Integer width: the only arithmetic is `len - 1` with `len ≥ 1`. It cannot
  underflow, so `nat` is exact.
