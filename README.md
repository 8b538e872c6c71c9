# curio, modelled in Dafny

curio is a small key/value store for "entities". Each entity is a dictionary of keys
and values. It is pickled into one file whose path comes from the SHA-1 of the entity's name:
`root/<first hex digit>/<40-digit digest>`. A database root holds sixteen shard
directories, one per lowercase hex digit. Every stored record carries its own name
under the reserved key `__name__`. A record left with only that key is removed from
the disk, not written. `find` walks the root and selects entities by a name pattern
and keys by a key pattern. Keys starting with `_` are private and never appear in
its results. A command-line front end merges defaults, environment variables, options and
positional arguments (`action root/db/entity:key value`) into one configuration. It
routes the action first and then checks the settings that action needs.

This project models the storage engine (`curio/core.py`) and the pure helpers of the
command-line front end (`curio/cli.py`):

- `wrappers.dfy`: `Option`, `Result` and `Outcome` (pass, or fail with an error).
- `strings.dfy`: `str.split`, splitting at the first separator, and joining, with their round trips.
- `values.dfy`: the values a record can hold, records, and the base record `{'__name__': name}`.
- `filesystem.dfy`: the disk as a value.
  - `dirs` is a set of paths and `files` maps paths to contents. A content is a pickled
    record or bytes that do not unpickle.
  - It models `os.makedirs`, `os.remove` and writing a pickle, with their `errno` errors and the path each error names. A path below a file fails with `ENOTDIR`.
  - The engine's methods take a disk and return the new one, or the error the source would raise.
- `layout.dfy`: `HEX_LOWERCASE`, `mkdir_p`, `create_hex_dirs`, `generate_target`, `initialize_db`.
  - `create_hex_dirs` and `initialize_db` return the new disk together with a pass or a failure,
    because directories made before a failure stay on the disk.
- `records.dfy`: `load_target`, `load`, `dump_target`, `dump`, and the files `walk` visits.
- `engine.dfy`: `CurioManager.get`, `set`, `delete` and `find`.
  - It also defines the store invariant `WellFormed`: every file `walk` visits unpickles
    to a record whose `__name__` hashes to that file's own path.
- `locks.dfy`: `LockManager`, a class over its set of held file handles.
- `config.dfy`: `CurioConfig`, a class over its dictionary of settings.
- `cli.py`'s helpers: action routing, `entity:key` paths, `_parse_action_data`,
  `VALID_NAME`, `validate_settings` and `validate_names`.

## Model

| member | source | states |
|---|---|---|
| Layout.GenerateTarget | curio/core.py:114-116 | The target is two components below the root. Its parent is the shard directory named by the digest's first hex digit, and its last component is the digest. |
| Layout.TargetDeterminesDigest | curio/core.py:114-116 | Two names share a target exactly when their digests are equal. |
| Layout.MkdirP | curio/core.py:17-22 | An existing directory is left as it is. A path that is a file raises `EEXIST`. Otherwise exactly the path and its missing ancestors are added, and no file changes. It succeeds exactly when no prefix of the path is a file. Only `OSError`s escape. The disk invariant is kept. |
| Layout.MkdirPIdempotent | curio/core.py:17-22 | A second `mkdir_p` of the same path succeeds and changes nothing. |
| Layout.CreateHexDirs | curio/core.py:24-27 | Whatever happens, no file changes and the disk stays valid. If `mkdir_p(parent)` fails, nothing changes and its error is raised. Otherwise the parent, its ancestors and the shards before the first shard path that is a file are added, and nothing else. That shard raises `EEXIST`. It succeeds exactly when no shard path is a file, and then all sixteen shards exist. |
| Layout.CreateShards | curio/core.py:26-27 | `map(mkdir_p, hex_dirs)` adds exactly the shards before the first shard path that is a file. It fails there with `EEXIST`, and passes exactly when there is no such shard. |
| Layout.FirstFileShard | curio/core.py:26-27 | The position where `create_hex_dirs` stops: no shard before it is a file, and the shard at it is one unless it is 16. |
| Layout.InitializeDb | curio/core.py:81-83 | It adds the root, its ancestors and the shards up to the first shard path that is a file, and nothing else. That shard raises `EEXIST`. No file changes. A failure of `mkdir_p(root)` changes nothing. It succeeds exactly when the root can be created and no shard path is a file, and then the parent directory of every possible target exists, for every name. |
| FileSystem.MakeDirs | curio/core.py:19 | `os.makedirs` succeeds exactly when the path does not exist and none of its ancestors is a file. It then adds exactly the path and its ancestors, and keeps all files and the disk invariant. An existing path raises `EEXIST`. Below a file it raises `ENOTDIR`, naming the path one component below the first ancestor that is a file. |
| FileSystem.MakeDirsBelowFile | curio/core.py:19 | On a valid disk, making a path below the file `p[..n]` raises `ENOTDIR` for `p[..n + 1]`, as the recursive `mkdir` of that directory does. |
| FileSystem.Remove | curio/core.py:120 | `os.remove` succeeds exactly when the path is a file. It removes only that file and keeps the disk invariant. A failure names the path. Its errno is `ENOTDIR` exactly when an ancestor is a file. Otherwise it is `EISDIR` exactly when the path is a directory, and `ENOENT` when it is missing. |
| FileSystem.WriteRecord | curio/core.py:122 | The write succeeds exactly when the path is not a directory and its parent is one. The file then holds the pickled record and nothing else changes. A failure names the path. Its errno is `ENOTDIR` exactly when an ancestor is a file. Otherwise it is `EISDIR` exactly when the path is a directory, and `ENOENT` when the parent is missing. |
| Records.LoadTarget | curio/core.py:103-104 | A file loads exactly when it holds a pickle. Otherwise the error is an unpickling error for that path. |
| Values.BaseRecord | curio/core.py:110-112 | The record of an entity with no data holds just `__name__`, set to the name. |
| Records.Load | curio/core.py:106-112 | With no file at the target, the result is the base record `{'__name__': name}`. Otherwise it is the file's record or its unpickling error. |
| Records.DumpTarget | curio/core.py:118-122 | A record with only `__name__` removes the file, which fails when there is none. Any other record is written. Only the target changes. |
| Records.Dump | curio/core.py:124-127 | Loading after a successful dump gives the record stamped with its name. The file exists exactly when the record has user data. The cases where the dump fails are stated. Only the target changes. |
| Records.StampKeepsUserData | curio/core.py:118-127 | Stamping `__name__` does not change whether a record has user data, so `dump` removes the file exactly when no other key is left. |
| Records.TargetIsWalked | curio/core.py:75-79 | The target of every stored entity is among the files `walk` visits. |
| Records.Walk | curio/core.py:75-79 | `walk` visits only files below the root. |
| Records.WalkVisits | curio/core.py:75-79 | `walk` visits every file below the root except those whose name starts with `.`. |
| Engine.WellFormedAfterDump | curio/core.py:124-127 | A dump that writes the record stamped with its own name, or removes it, keeps the store invariant. |
| Engine.NoRecordsIsWellFormed | curio/core.py:81-83 | A store with no file below its root, such as a freshly initialised one, satisfies the store invariant. |
| Engine.Get | curio/core.py:134-136 | `get` fails exactly when `load` fails. Otherwise it returns the stored value, or `None` for an absent key. For a never-written entity it returns the name under `__name__` and `None` for any other key. |
| Engine.Set | curio/core.py:138-143 | Loading after `set` gives the old record with the key set and the name stamped. `get` of the key returns the value, and every other key is unchanged. A load error propagates. The file is left exactly when the new record has user data. Whenever the new record has user data, it succeeds exactly when the target is not a directory and its shard exists. This covers any key other than `__name__`, and `__name__` on a stored record. When the record is left with no user data, which happens when `__name__` is set on a never-written entity, the file is removed, and this succeeds exactly when there is a file. Only the target changes. The disk and store invariants are kept. |
| Engine.Delete | curio/core.py:145-151 | Loading after `delete` gives the old record without the key, stamped. `get` of the key returns `None`. Every other key is unchanged. The file is left exactly when a user key remains, so it is removed when the last one goes. On a valid disk, once the record loads, `delete` succeeds exactly when the entity has a file, so deleting from a never-written entity fails. Deleting an absent key from a stored record with user data changes nothing. The invariants are kept. |
| Engine.PublicMatches | curio/core.py:166-169 | A key is selected exactly when the record has it, it is not private and it matches the key pattern, with the stored value. `__name__` is never selected. |
| Engine.EffectivePattern | curio/core.py:154-155 | A missing or empty pattern becomes exactly `.*`, and any other pattern is kept. |
| Engine.MatchingKeys | curio/core.py:166-169 | The inner loop of `find` collects exactly the public matching keys of one record. |
| Engine.Find | curio/core.py:153-170 | `find` fails exactly when some visited file does not unpickle, or holds a record without a string `__name__` (the `KeyError` or `TypeError` of core.py:161-163). Its keys are exactly the names of visited records that match the entity pattern. Each name maps to the public matching keys of a record of that name. On a well-formed store the result is exactly the selection function. |
| Engine.ScanRecords | curio/core.py:158-170 | The loops of `find` with the patterns already defaulted. The scan fails exactly when a visited file does not unpickle or holds a record without a string `__name__` (the `KeyError` or `TypeError` of core.py:161-163). Its names are the matching names, and each name maps to a record of that name. |
| Engine.ScanStep | curio/core.py:160-169 | Scanning one more record adds its name, with its reported entries, exactly when the entity pattern matches. Every earlier result stays backed by a record. |
| Engine.WitnessesMakeSelection | curio/core.py:158-170 | Results whose names are the matching names, and each of whose entries comes from a record of that name, equal the selection on a well-formed store. |
| Engine.StoredEntityIsFound | curio/core.py:153-170 | A stored entity whose name matches is in the result of `find`, with exactly its public keys that match the key pattern. |
| Engine.DefaultPatternsFindEverything | curio/core.py:153-170 | With no patterns, `find` lists every visited record with all of its public keys. |
| Engine.PrivateKeysAreHidden | curio/core.py:168 | With any key pattern that matches `visible`, `{'_internal': 1, 'visible': 2}` yields only `visible`. |
| Locks.LockManager.constructor | curio/core.py:40-41 | A new lock manager holds no locks and has released none. |
| Locks.LockManager.Lock | curio/core.py:43-48 | A granted lock adds the handle. A refused lock raises `CurioLocked` with the handle's name and leaves the set unchanged. |
| Locks.LockManager.Unlock | curio/core.py:50-55 | A handle that is not held is ignored. A held handle is released once and removed. |
| Locks.LockManager.UnlockAll | curio/core.py:57-61 | Every held handle is released exactly once, in some order. Afterwards no lock is held. |
| Config.EnvSettings | curio/core.py:177-182 | Exactly the mapped keys whose environment variable is set and non-empty are overwritten, each with that variable's value. |
| Config.OptsSettings | curio/core.py:184-188 | Only keys of the defaults are overwritten, and exactly those whose option is truthy, each with that option. |
| Config.CurioConfig.UpdateFromEnv | curio/core.py:177-182 | The new settings are the old ones overwritten by the environment entries. |
| Config.CurioConfig.UpdateFromOpts | curio/core.py:184-188 | The new settings are the old ones overwritten by the truthy options. |
| Config.CurioConfig.constructor | curio/core.py:173-175 | A new configuration holds its defaults and starts out equal to them. |
| Config.CurioConfig.UpdateFromArgs | curio/core.py:190-206 | The new settings are the old ones overwritten by the entries parsed from the positional arguments, with the root as `os.path.join` makes it. |
| Config.ArgsSettings | curio/core.py:190-206 | The first argument is the action and the third is the value. A second argument always sets the entity. With at most one argument, nothing but the action is set. |
| Config.LocationSettings | curio/core.py:194-204 | The entity is always set, and nothing other than the entity, the database, the root and the key. The key is set exactly when the text holds a `:`. |
| Config.EntityForm | curio/core.py:194-198 | A bare `entity` sets only the entity. |
| Config.EntityKeyForm | curio/core.py:194-204 | `entity:key` sets the entity and the key, and leaves the database and the root to the environment, the options or the defaults. |
| Config.DbEntityKeyForm | curio/core.py:194-204 | `db/entity:key` also sets the database, and still leaves the root alone. |
| Config.LocationRoundTrip | curio/core.py:194-204 | `root/db/entity:key` gives back each of its four parts whenever the root function rebuilds the root from its segments. |
| Config.ArgsRoundTrip | curio/core.py:190-206 | Read as intended, with the root joined by `/`, `action root/db/entity:key value` sets each entry back to its own part, for any non-empty root, absolute or relative. |
| Config.ArgsRoundTripAsWritten | curio/core.py:190-206 | As written, the same round trip holds for a relative root made of non-empty segments, such as `srv/data`. |
| Config.PosixJoin | curio/core.py:202 | `os.path.join`: an absolute last part replaces everything before it. |
| Config.PosixJoinOfSegments | curio/core.py:202 | For non-empty segments without `/`, `os.path.join` is joining with `/`. |
| Config.RootAsWritten | curio/core.py:200-202 | The root as the code computes it: no leading segments leave it empty, one segment is the root itself, and an absolute last segment replaces the ones before it, as `os.path.join` does. |
| Config.AsWrittenRootIsRelative | curio/core.py:202 | As written, the root taken from a location never starts with `/`. |
| Config.AbsoluteRootExample | curio/core.py:202 | As written, `/srv/db/e` gives the root `srv` and `/db/e` the empty root. The intended roots are `/srv` and `/`. |
| Cli.Matches | curio/cli.py:126-127 | The candidates are exactly the actions that start with the given text. |
| Cli.MatchAction | curio/cli.py:126-132 | A result is returned exactly when one action starts with the text, and it is that action. "invalid action" is raised exactly when none does. "vague action" lists exactly the actions that start with the text, in order, when there are two or more. |
| Cli.RouteAction | curio/cli.py:229-235 | `route_action` returns one of the four actions, and one that starts with the text. |
| Cli.PrefixRoutesToAction | curio/cli.py:229-235 | Every non-empty abbreviation of one of the four actions routes to that action. |
| Cli.ExactActionRoutesToItself | curio/cli.py:229-235 | Each action routes to itself. |
| Cli.EmptyActionIsVague | curio/cli.py:23 | The empty text is a vague request listing all four actions. |
| Cli.MatchActionExamples | curio/tests/test_cli.py:42-53 | No actions gives "invalid". `foo` among `fooa` and `foob` is vague. `fooa` routes to `fooa`. `f` routes to `foo`. |
| Cli.ResolveKeyPath | curio/cli.py:150-155 | A path without `:` raises `InvalidCurioPath`. Otherwise the entity has no `:` and `path == entity + ':' + key`. |
| Cli.ResolveKeyPathRoundTrip | curio/cli.py:150-155 | Resolving `entity:key` gives back both parts, whatever `:` the key holds. |
| Cli.ResolveKeyPathExamples | curio/tests/test_cli.py:28-32 | `foo` is refused and `foo:bar` gives `('foo', 'bar')`. |
| Cli.KeyReadingsDiffer | curio/core.py:196-204 | For `e:k1:k2` the configuration takes the key `k1`, while `_resolve_key_path` takes `k1:k2`. |
| Cli.ParseActionData | curio/cli.py:115-124 | Up to three arguments are popped, giving the action, the entity and key from the path, and the value. A missing position is `None`. A path without `:` fails after two pops. |
| Cli.ArgList.constructor | curio/cli.py:115 | The argument list starts out as the given arguments. |
| Cli.ArgList.PopFront | curio/cli.py:118-123 | `args.pop(0)` returns the first argument and leaves the rest. |
| Cli.ValidNameIsOneComponent | curio/cli.py:24 | A valid name holds neither `/` nor `:` and does not start with `.`. |
| Cli.ValidNameExamples | curio/cli.py:24 | `my-db_2.old` and `db\n` are accepted. The empty name, `.hidden`, `a/b`, `a:b` and `db\n\n` are refused. |
| Cli.ValidName | curio/cli.py:24 | A valid name is non-empty and starts with an ASCII letter or digit. |
| Cli.RequiredSettings | curio/cli.py:238 | The keys checked are `root` and `db`, then the action's required options. Each is a known setting. |
| Cli.RequiredMessage | curio/cli.py:239-243 | The message is `<key> is required`, followed by ` (environment variable <name>)` exactly when the key has an environment variable. |
| Cli.ValidateSettings | curio/cli.py:237-245 | It passes exactly when `root`, `db` and every option the action requires are truthy. Otherwise it fails with the message of the first one that is not. |
| Cli.NamelikeSettings | curio/cli.py:249 | The keys whose values must be names are `db` first, then the action's name-like keys. Each is also a required key of that action. |
| Cli.InvalidNameMessage | curio/cli.py:253 | The message starts with `invalid name for <key>` and ends with the value in single quotes. |
| Cli.ValidateNames | curio/cli.py:247-253 | It passes exactly when `db` and every name-like key of the action is unset, empty or a valid name. Otherwise it fails naming the first offending key and value. |
| Cli.DefaultsLackDb | curio/cli.py:10-17 | With the defaults alone, `db` is unset, so every action needs one. |
| Strings.Split | curio/core.py:196-197 | There is at least one piece and no piece holds the separator. |
| Strings.SplitWithoutSep | curio/core.py:196-197 | A text splits into itself alone exactly when it holds no separator. |
| Strings.SplitCount | curio/core.py:196-204 | A text splits into more than one piece exactly when it holds the separator, so `len(subargs) > 1` means the location has a `:`. |
| Strings.SplitFirstIsTakeUntil | curio/cli.py:152 | The first piece of `str.split` is the text that `_resolve_key_path` takes as the entity. |
| Strings.JoinSplit | curio/core.py:196-197 | Joining the pieces of a split gives back the text. |
| Strings.SplitJoin | curio/core.py:196-197 | Splitting the join of separator-free pieces gives back the pieces. |
| Strings.SplitAppend | curio/core.py:196-197 | Splitting `a + sep + b` gives the pieces of `a` followed by those of `b`. |
| Strings.TakeUntil | curio/cli.py:152 | The result is a prefix of the text without the separator. When it is shorter than the text, the separator comes right after it. |

## Left out

- **SHA-1.** It is a parameter of the database, a function onto 40 lowercase hex digits. Its collisions are kept: two names with one digest share a file.
- **pickle.** A file holds either a record value or bytes that fail to unpickle. Serialisation itself is not modelled.
- **Regular expressions in `find`.** They are a matching predicate passed in. An invalid pattern, which makes `re.compile` raise, is not modelled.
- **`os.walk`.**
  - Its order is not modelled. `find` is stated for any order in which the visited files are taken.
  - A later record with the same name overwrites an earlier one in the result, and which of them wins depends on that order.
- **The environment and the options.** `os.environ` and the option object are maps passed in.
- **Locking.**
  - `fcntl.lockf` is a boolean parameter: the lock is either granted or refused.
  - `lock_entity` and `unlock_entity` (curio/core.py:85-101) are not modelled, so `Engine.Set` and `Engine.Delete` do not lock.
    - The retry loop in `lock_entity` catches `IOError`, but `CurioLocked` is a `RuntimeError`, so contention propagates.
    - `unlock_entity` opens a fresh handle that is never among the held ones, so it never releases anything.
  - `Locks.LockManager.UnlockAll` releases the handles in the order it picks them from the set, not in Python's set order.
- **`Curio.__del__`** depends on when a finalizer runs.
- **`Curio.__init__` and `CurioManager.__init__`.** Initialisation is `Layout.InitializeDb`, called on a disk.
- **File permissions and the `umask` setting.** Failures other than `ENOENT`, `EEXIST`, `ENOTDIR` and `EISDIR` are not modelled.
- **`main`, `CurioCLI.run`, `create_parser`, the display functions, `_exit_on_noop`, `_exit_if_no_config` and `_route_action`'s `parser.error`.** These are I/O and option-parser plumbing. `main` and `run` also refer to names that do not exist.
- **`curio/exceptions.py`.** It only defines exception classes. `CurioLocked` becomes `Locks.LockError`.
- **setup.py** is packaging.
- **`validate_settings` and `validate_names`** require the action to be one of the four. For any other action the source raises `KeyError` on the lookup table.
- **`Engine.Delete` on a never-written entity fails.** The loaded base record has only `__name__`, so `dump_target` calls `os.remove` on a missing file. The code raises `OSError` (`ENOENT`) here even though a missing entity reads as empty. The model follows the code.
  - For the same reason, deleting the last user key of an entity twice fails the second time.
- **`\w` in `VALID_NAME`** is taken as the ASCII word characters, as in a `str` pattern without `re.UNICODE`.

## Findings

| source | as written | input that shows it | evidently intended | confidence | as-written member | corrected member |
|---|---|---|---|---|---|---|
| curio/core.py:202 | The root is `os.path.join(*location[0:-2])`. The empty segment in front of an absolute location makes `os.path.join('', 'srv')` return `srv`, so the leading `/` is lost. | args `['get', '/srv/db/e:k']` set `root` to `srv`, a path relative to the working directory. | The segments joined by `/`, so the root is `/srv`, and `/` for `/db/e`. `Config.CurioConfig.UpdateFromArgs` keeps the code as written, with `Config.RootAsWritten`. The corrected reading is `Config.ArgsSettings` with `Config.RootOf`, and `Config.ArgsRoundTrip` is proved about it. | not executed | Config.AsWrittenRootIsRelative | Config.ArgsRoundTrip |
