/**
 * `CurioConfig`: a dict of settings that starts from the defaults and is then overwritten
 * from the environment, from the command-line options and from the positional arguments.
 */
module Config {
  import opened Wrappers
  import opened Strings

  /** A setting: a string, or Python's `None`. */
  type Setting = Option<string>

  /** Python truthiness of a setting: present and non-empty. */
  predicate Truthy(v: Setting) {
    v.Some? && v.value != ""
  }

  /** `config.get(key)` */
  function Lookup(config: map<string, Setting>, key: string): Setting {
    if key in config then config[key] else None
  }

  /** The entries `update_from_env` overwrites: each mapped key whose environment variable
      is set to a non-empty string gets that string. */
  function EnvSettings(envMapping: map<string, string>, environ: map<string, string>): (m: map<string, Setting>)
    ensures forall k | k in m :: k in envMapping && Truthy(m[k]) && m[k] == Lookup(OptionValues(environ), envMapping[k])
    ensures forall k | k in envMapping && Truthy(Lookup(OptionValues(environ), envMapping[k])) :: k in m
  {
    map k | k in envMapping && envMapping[k] in environ && environ[envMapping[k]] != "" :: Some(environ[envMapping[k]])
  }

  /** `os.environ` seen through `os.environ.get`. */
  function OptionValues(environ: map<string, string>): map<string, Setting> {
    map name | name in environ :: Some(environ[name])
  }

  /** The entries `update_from_opts` overwrites: only keys of the defaults, and only with
      truthy option values. */
  function OptsSettings(defaults: map<string, Setting>, opts: map<string, Setting>): (m: map<string, Setting>)
    ensures m.Keys <= defaults.Keys
    ensures forall k | k in m :: Truthy(m[k]) && m[k] == Lookup(opts, k)
    ensures forall k | k in defaults && Truthy(Lookup(opts, k)) :: k in m
  {
    map k | k in defaults && k in opts && Truthy(opts[k]) :: opts[k]
  }

  /** One step of `os.path.join` (POSIX): an absolute part replaces the path so far, and a
      `'/'` is inserted unless the path so far is empty or already ends with one. */
  function JoinStep(path: string, part: string): string {
    if StartsWith(part, "/") then part
    else if path == "" || path[|path| - 1] == '/' then path + part
    else path + "/" + part
  }

  /** `os.path.join(*parts)` */
  function PosixJoin(parts: seq<string>): (path: string)
    requires |parts| >= 1
    ensures StartsWith(parts[|parts| - 1], "/") ==> path == parts[|parts| - 1]
  {
    if |parts| == 1 then parts[0]
    else JoinStep(PosixJoin(parts[..|parts| - 1]), parts[|parts| - 1])
  }

  /** The root `update_from_args` takes from the leading segments of a location, as the
      source computes it: `os.path.join(*location[0:-2])`. */
  function RootAsWritten(segments: seq<string>): (root: string)
    ensures segments == [] ==> root == ""
    ensures |segments| >= 1 && StartsWith(segments[|segments| - 1], "/") ==> root == segments[|segments| - 1]
    ensures |segments| == 1 ==> root == segments[0]
  {
    if segments == [] then "" else PosixJoin(segments)
  }

  /** As written, the root never starts with `'/'`: the empty segment in front of an
      absolute location is dropped by `os.path.join`, so `/srv/db/e` gives the root `srv`. */
  lemma {:induction false} AsWrittenRootIsRelative(segments: seq<string>)
    requires |segments| >= 1
    requires forall i | 0 <= i < |segments| :: '/' !in segments[i]
    ensures !StartsWith(RootAsWritten(segments), "/")
    decreases |segments|
  {
    if |segments| > 1 {
      var init := segments[..|segments| - 1];
      var last := segments[|segments| - 1];
      AsWrittenRootIsRelative(init);
      var path := PosixJoin(init);
      assert last == [] || last[0] != '/';
      if path != "" {
        var joined := JoinStep(path, last);
        assert joined[..1] == path[..1];
      } else {
        assert JoinStep(path, last) == last;
      }
    } else {
      assert segments[0] == [] || segments[0][0] != '/';
    }
  }

  /** The root `update_from_args` evidently means: the leading segments joined by `'/'`,
      which keeps an absolute path absolute; the single empty segment in front of
      `/db/entity` stands for the filesystem root. */
  function RootOf(segments: seq<string>): string {
    if segments == [""] then "/" else Join(segments, '/')
  }

  /** The counterexample: for the argument `/srv/db/e` the source takes the root `srv`,
      and for `/db/e` the empty root, while the intended roots are `/srv` and `/`. */
  lemma AbsoluteRootExample()
    ensures RootAsWritten(["", "srv"]) == "srv" && RootAsWritten([""]) == ""
    ensures RootOf(["", "srv"]) == "/srv" && RootOf([""]) == "/"
  {
    assert PosixJoin([""]) == "";
    assert ["", "srv"][..1] == [""];
  }

  /** For segments that are neither empty nor hold a `'/'`, `os.path.join` is joining with
      `'/'`: a relative root such as `srv/data` comes back as it was written. */
  lemma {:induction false} PosixJoinOfSegments(segments: seq<string>)
    requires |segments| >= 1
    requires forall i | 0 <= i < |segments| :: segments[i] != "" && '/' !in segments[i]
    ensures PosixJoin(segments) == Join(segments, '/')
    decreases |segments|
  {
    if |segments| > 1 {
      var init := segments[..|segments| - 1];
      var last := segments[|segments| - 1];
      PosixJoinOfSegments(init);
      var path := Join(init, '/');
      var tail := init[|init| - 1];
      if |init| > 1 {
        JoinSnoc(init[..|init| - 1], tail, '/');
        assert init[..|init| - 1] + [tail] == init;
      }
      assert path[|path| - 1] == tail[|tail| - 1];
      assert last[0] != '/';
      assert JoinStep(path, last) == path + "/" + last;
      JoinSnoc(init, last, '/');
      assert init + [last] == segments;
    }
  }

  /** The entries `update_from_args` takes from `root/db/entity:key`: the text is split on
      every `':'` and the key is the second piece; the first piece is split on `'/'` into
      the entity (last segment), the database (the one before) and the root, which `rootOf`
      makes of the rest. */
  function LocationSettings(arg: string, rootOf: seq<string> -> string): (m: map<string, Setting>)
    ensures "entity" in m && m.Keys <= {"entity", "db", "root", "key"}
    ensures "key" in m <==> ':' in arg
  {
    var subargs := Split(arg, ':');
    SplitCount(arg, ':');
    var location := Split(subargs[0], '/');
    var n := |location|;
    var m0 := map["entity" := Some(location[n - 1])];
    var m1 := if n > 1 then m0["db" := Some(location[n - 2])] else m0;
    var m2 := if n > 2 then m1["root" := Some(rootOf(location[..n - 2]))] else m1;
    if |subargs| > 1 then m2["key" := Some(subargs[1])] else m2
  }

  /** The entries `update_from_args` overwrites from the positional arguments. */
  function ArgsSettings(args: seq<string>, rootOf: seq<string> -> string): (m: map<string, Setting>)
    ensures |args| > 0 ==> "action" in m && m["action"] == Some(args[0])
    ensures |args| > 1 ==> "entity" in m
    ensures |args| > 2 ==> "value" in m && m["value"] == Some(args[2])
    ensures |args| <= 1 ==> m.Keys <= {"action"}
  {
    var m0: map<string, Setting> := if |args| > 0 then map["action" := Some(args[0])] else map[];
    var m1 := if |args| > 1 then m0 + LocationSettings(args[1], rootOf) else m0;
    if |args| > 2 then m1["value" := Some(args[2])] else m1
  }

  /** Splitting `path:key` on `':'` gives back both parts when neither holds a `':'`. */
  lemma SplitKeyed(path: string, key: string)
    requires ':' !in path && ':' !in key
    ensures Split(path + ":" + key, ':') == [path, key]
  {
    SplitAppend(path, ':', key);
    SplitWithoutSep(path, ':');
    SplitWithoutSep(key, ':');
    assert path + ":" + key == path + [':'] + key;
  }

  /** Splitting `root/db/entity` on `'/'` gives the segments of the root, then the database
      and the entity. */
  lemma SplitLocation(root: string, db: string, entity: string)
    requires '/' !in db && '/' !in entity
    ensures Split(root + "/" + db + "/" + entity, '/') == Split(root, '/') + [db, entity]
  {
    assert root + "/" + db + "/" + entity == root + ['/'] + (db + ['/'] + entity);
    SplitAppend(root, '/', db + ['/'] + entity);
    SplitAppend(db, '/', entity);
    SplitWithoutSep(db, '/');
    SplitWithoutSep(entity, '/');
  }

  /** A bare `entity` sets only the entity. */
  lemma EntityForm(entity: string, rootOf: seq<string> -> string)
    requires ':' !in entity && '/' !in entity
    ensures LocationSettings(entity, rootOf) == map["entity" := Some(entity)]
  {
    SplitWithoutSep(entity, ':');
    SplitWithoutSep(entity, '/');
  }

  /** `entity:key` sets the entity and the key, and leaves the database and the root to
      the environment, the options or the defaults. */
  lemma EntityKeyForm(entity: string, key: string, rootOf: seq<string> -> string)
    requires ':' !in entity && ':' !in key && '/' !in entity
    ensures LocationSettings(entity + ":" + key, rootOf) == map["entity" := Some(entity), "key" := Some(key)]
  {
    SplitKeyed(entity, key);
    SplitWithoutSep(entity, '/');
  }

  /** `db/entity:key` also sets the database, and still leaves the root alone. */
  lemma DbEntityKeyForm(db: string, entity: string, key: string, rootOf: seq<string> -> string)
    requires ':' !in db && ':' !in entity && ':' !in key && '/' !in db && '/' !in entity
    ensures LocationSettings(db + "/" + entity + ":" + key, rootOf) ==
      map["entity" := Some(entity), "db" := Some(db), "key" := Some(key)]
  {
    var path := db + "/" + entity;
    assert ':' !in path;
    SplitKeyed(path, key);
    assert path == db + ['/'] + entity;
    SplitAppend(db, '/', entity);
    SplitWithoutSep(db, '/');
    SplitWithoutSep(entity, '/');
  }

  /** `root/db/entity:key` gives back each part, whenever `rootOf` rebuilds the root from
      its segments. */
  lemma LocationRoundTrip(root: string, db: string, entity: string, key: string, rootOf: seq<string> -> string)
    requires rootOf(Split(root, '/')) == root
    requires ':' !in root && ':' !in db && ':' !in entity && ':' !in key
    requires '/' !in db && '/' !in entity
    ensures LocationSettings(root + "/" + db + "/" + entity + ":" + key, rootOf) ==
      map["entity" := Some(entity), "db" := Some(db), "root" := Some(root), "key" := Some(key)]
  {
    var path := root + "/" + db + "/" + entity;
    assert ':' !in path;
    SplitKeyed(path, key);
    SplitLocation(root, db, entity);
    var location := Split(root, '/') + [db, entity];
    assert location[..|location| - 2] == Split(root, '/');
  }

  /** The intended reading: `action root/db/entity:key value` sets each of the six entries
      to its part, for any non-empty root, absolute or relative. */
  lemma ArgsRoundTrip(action: string, root: string, db: string, entity: string, key: string, value: string)
    requires root != ""
    requires ':' !in root && ':' !in db && ':' !in entity && ':' !in key
    requires '/' !in db && '/' !in entity
    ensures ArgsSettings([action, root + "/" + db + "/" + entity + ":" + key, value], RootOf) ==
      map["action" := Some(action), "entity" := Some(entity), "db" := Some(db), "root" := Some(root),
          "key" := Some(key), "value" := Some(value)]
  {
    var arg := root + "/" + db + "/" + entity + ":" + key;
    JoinSplit(root, '/');
    assert Join([""], '/') == "";
    LocationRoundTrip(root, db, entity, key, RootOf);
    ThreeArgs(action, arg, value, RootOf);
    AssembleEntries(LocationSettings(arg, RootOf), action, root, db, entity, key, value);
  }

  /** As written, the round trip holds for a relative root made of non-empty segments,
      such as `srv/data`. */
  lemma ArgsRoundTripAsWritten(action: string, segments: seq<string>, db: string, entity: string, key: string, value: string)
    requires |segments| >= 1
    requires forall i | 0 <= i < |segments| :: segments[i] != "" && '/' !in segments[i] && ':' !in segments[i]
    requires ':' !in db && ':' !in entity && ':' !in key
    requires '/' !in db && '/' !in entity
    ensures var root := Join(segments, '/');
      ArgsSettings([action, root + "/" + db + "/" + entity + ":" + key, value], RootAsWritten) ==
      map["action" := Some(action), "entity" := Some(entity), "db" := Some(db), "root" := Some(root),
          "key" := Some(key), "value" := Some(value)]
  {
    var root := Join(segments, '/');
    var arg := root + "/" + db + "/" + entity + ":" + key;
    SplitJoin(segments, '/');
    PosixJoinOfSegments(segments);
    JoinWithout(segments, '/', ':');
    LocationRoundTrip(root, db, entity, key, RootAsWritten);
    ThreeArgs(action, arg, value, RootAsWritten);
    AssembleEntries(LocationSettings(arg, RootAsWritten), action, root, db, entity, key, value);
  }

  /** The six entries, assembled from the action, the location entries and the value. */
  lemma AssembleEntries(loc: map<string, Setting>, action: string, root: string, db: string, entity: string, key: string, value: string)
    requires loc == map["entity" := Some(entity), "db" := Some(db), "root" := Some(root), "key" := Some(key)]
    ensures (map["action" := Some(action)] + loc)["value" := Some(value)] ==
      map["action" := Some(action), "entity" := Some(entity), "db" := Some(db), "root" := Some(root),
          "key" := Some(key), "value" := Some(value)]
  {
  }

  /** With three arguments, the entries are the action, the location entries and the value. */
  lemma ThreeArgs(action: string, arg: string, value: string, rootOf: seq<string> -> string)
    ensures ArgsSettings([action, arg, value], rootOf) ==
      (map["action" := Some(action)] + LocationSettings(arg, rootOf))["value" := Some(value)]
  {
  }

  /** The entries of `m` whose key is in `keys`. */
  function Restrict(m: map<string, Setting>, keys: set<string>): map<string, Setting> {
    map k | k in m && k in keys :: m[k]
  }

  /** Taking one more key into the restriction overwrites that key, if `m` has it. */
  lemma RestrictStep(base: map<string, Setting>, m: map<string, Setting>, keys: set<string>, key: string)
    ensures base + Restrict(m, keys + {key}) ==
      if key in m then (base + Restrict(m, keys))[key := m[key]] else base + Restrict(m, keys)
  {
    if key in m {
      assert Restrict(m, keys + {key}) == Restrict(m, keys)[key := m[key]];
    } else {
      assert Restrict(m, keys + {key}) == Restrict(m, keys);
    }
  }

  lemma RestrictAll(m: map<string, Setting>, keys: set<string>)
    requires m.Keys <= keys
    ensures Restrict(m, keys) == m
  {
  }

  class CurioConfig {
    const defaults: map<string, Setting>
    var entries: map<string, Setting>

    /** A config starts out as a copy of its defaults. */
    constructor (defaults: map<string, Setting>)
      ensures this.defaults == defaults && entries == defaults
    {
      this.defaults := defaults;
      entries := defaults;
    }

    /** `update_from_env`: looks up the variable of each mapped key and overwrites the key
        when the variable is set and non-empty; every other entry is unchanged. */
    method UpdateFromEnv(envMapping: map<string, string>, environ: map<string, string>)
      modifies this
      ensures entries == old(entries) + EnvSettings(envMapping, environ)
    {
      var keys := envMapping.Keys;
      ghost var done: set<string> := {};
      ghost var overrides := EnvSettings(envMapping, environ);
      while keys != {}
        invariant keys == envMapping.Keys - done && done <= envMapping.Keys
        invariant entries == old(entries) + Restrict(overrides, done)
      {
        var key :| key in keys;
        var envVal := Lookup(OptionValues(environ), envMapping[key]);
        RestrictStep(old(entries), overrides, done, key);
        if Truthy(envVal) {
          entries := entries[key := envVal];
        }
        keys := keys - {key};
        done := done + {key};
      }
      RestrictAll(overrides, done);
    }

    /** `update_from_opts`: for each key of the defaults, overwrites it with the option of
        that name when the option is truthy; every other entry is unchanged. */
    method UpdateFromOpts(opts: map<string, Setting>)
      modifies this
      ensures entries == old(entries) + OptsSettings(defaults, opts)
    {
      var keys := defaults.Keys;
      ghost var done: set<string> := {};
      ghost var overrides := OptsSettings(defaults, opts);
      while keys != {}
        invariant keys == defaults.Keys - done && done <= defaults.Keys
        invariant entries == old(entries) + Restrict(overrides, done)
      {
        var key :| key in keys;
        var val := Lookup(opts, key);
        RestrictStep(old(entries), overrides, done, key);
        if Truthy(val) {
          entries := entries[key := val];
        }
        keys := keys - {key};
        done := done + {key};
      }
      RestrictAll(overrides, done);
    }

    /** `update_from_args`: overwrites `action`, then the location entries, then `value`,
        as far as there are arguments. The root is `os.path.join` of the leading segments,
        as the source computes it. */
    method UpdateFromArgs(args: seq<string>)
      modifies this
      ensures entries == old(entries) + ArgsSettings(args, RootAsWritten)
    {
      ghost var parsed: map<string, Setting> := map[];
      if |args| > 0 {
        entries := entries["action" := Some(args[0])];
        parsed := map["action" := Some(args[0])];
      }
      assert entries == old(entries) + parsed;
      if |args| > 1 {
        var location := LocationSettings(args[1], RootAsWritten);
        entries := entries + location;
        parsed := parsed + location;
      }
      assert entries == old(entries) + parsed;
      if |args| > 2 {
        entries := entries["value" := Some(args[2])];
        parsed := parsed["value" := Some(args[2])];
      }
      assert parsed == ArgsSettings(args, RootAsWritten);
    }
  }
}
