/**
 * The pure helpers of the command-line front end: action routing, `entity:key` paths,
 * the positional-argument parser and the checks run on the merged settings.
 */
module Cli {
  import opened Wrappers
  import opened Strings
  import opened Config

  const ValidActions: seq<string> := ["get", "set", "delete", "find"]

  /** Which settings each action needs to be non-empty, besides `root` and `db`. */
  const RequiredOptions: map<string, seq<string>> :=
    map["get" := ["entity", "key"], "set" := ["entity", "key", "value"], "delete" := ["entity", "key"], "find" := []]

  /** Which settings of each action must be valid names, besides `db`. */
  const RequiredNamelike: map<string, seq<string>> :=
    map["get" := ["entity", "key"], "set" := ["entity", "key"], "delete" := ["entity", "key"], "find" := []]

  /** The environment variable that may supply each setting. */
  const EnvMapping: map<string, string> :=
    map["root" := "CURIO_ROOT", "db" := "CURIO_DB", "umask" := "CURIO_UMASK"]

  const ConfigDefaults: map<string, Setting> :=
    map["root" := Some("/var/lib/curio"), "db" := None, "entity" := None, "key" := None,
        "value" := None, "umask" := Some("0027")]

  datatype ActionError = InvalidAction(action: string) | VagueAction(matches: seq<string>)

  /** The entries of `actions` that start with `action`, in their order. */
  function Matches(actions: seq<string>, action: string): (m: seq<string>)
    ensures |m| <= |actions|
    ensures forall x :: x in m <==> x in actions && StartsWith(x, action)
  {
    if actions == [] then []
    else (if StartsWith(actions[0], action) then [actions[0]] else []) + Matches(actions[1..], action)
  }

  /** `_match_action`: the one entry of `actions` that `action` abbreviates; an error naming
      the action when none does, and one listing the candidates when several do. */
  function MatchAction(actions: seq<string>, action: string): (r: Result<string, ActionError>)
    ensures r.Ok? ==> r.value in actions && StartsWith(r.value, action)
    ensures r.Ok? ==> forall x | x in actions && StartsWith(x, action) :: x == r.value
    ensures r == Err(InvalidAction(action)) <==> forall x | x in actions :: !StartsWith(x, action)
    ensures r.Ok? <==> |Matches(actions, action)| == 1
    ensures r.Err? && r.error.VagueAction? ==>
      |r.error.matches| > 1 && r.error.matches == Matches(actions, action)
  {
    var m := Matches(actions, action);
    if |m| == 0 then Err(InvalidAction(action))
    else if |m| > 1 then (assert m[0] in m; Err(VagueAction(m)))
    else (assert m[0] in m; Ok(m[0]))
  }

  /** `route_action`: `MatchAction` over the four actions. */
  function RouteAction(action: string): (r: Result<string, ActionError>)
    ensures r.Ok? ==> r.value in ValidActions && StartsWith(r.value, action)
  {
    MatchAction(ValidActions, action)
  }

  /** Nothing matches among candidates that `action` does not abbreviate. */
  lemma NoMatches(actions: seq<string>, action: string)
    requires forall x | x in actions :: !StartsWith(x, action)
    ensures Matches(actions, action) == []
  {
  }

  /** No two actions share their first letter. */
  lemma ActionsDifferInFirstLetter()
    ensures forall i, j | 0 <= i < j < |ValidActions| :: |ValidActions[i]| > 0 && ValidActions[i][0] != ValidActions[j][0]
  {
  }

  /** Every non-empty abbreviation of an action routes to that action; in particular each
      action routes to itself. */
  lemma PrefixRoutesToAction(action: string, target: string)
    requires target in ValidActions && action != [] && StartsWith(target, action)
    ensures RouteAction(action) == Ok(target)
  {
    ActionsDifferInFirstLetter();
    forall x | x in ValidActions && StartsWith(x, action)
      ensures x == target
    {
      assert x[0] == action[0] == target[0];
    }
    MatchesOnlyTarget(ValidActions, action, target);
  }

  /** When `target` occurs once among the candidates and is the only one `action`
      abbreviates, the matches are exactly `[target]`. */
  lemma {:induction false} MatchesOnlyTarget(actions: seq<string>, action: string, target: string)
    requires target in actions && StartsWith(target, action)
    requires forall i, j | 0 <= i < j < |actions| :: actions[i] != actions[j]
    requires forall x | x in actions && StartsWith(x, action) :: x == target
    ensures Matches(actions, action) == [target]
    decreases |actions|
  {
    var rest := actions[1..];
    assert forall x | x in rest :: x in actions;
    if actions[0] == target {
      assert target !in rest by {
        forall k | 0 <= k < |rest| ensures rest[k] != target { assert rest[k] == actions[k + 1]; }
      }
      NoMatches(rest, action);
    } else {
      assert target in rest;
      MatchesOnlyTarget(rest, action, target);
    }
  }

  /** Each action routes to itself. */
  lemma ExactActionRoutesToItself(action: string)
    requires action in ValidActions
    ensures RouteAction(action) == Ok(action)
  {
    assert StartsWith(action, action) by { assert action[..|action|] == action; }
    PrefixRoutesToAction(action, action);
  }

  /** The empty string abbreviates all four actions. */
  lemma EmptyActionIsVague()
    ensures RouteAction("") == Err(VagueAction(ValidActions))
  {
    assert forall x | x in ValidActions :: StartsWith(x, "");
    assert Matches(ValidActions, "") == ValidActions;
  }

  /** Matching against a list of two candidates, one candidate at a time. */
  lemma MatchesOfTwo(x: string, y: string, action: string)
    ensures Matches([x, y], action) ==
      (if StartsWith(x, action) then [x] else []) + (if StartsWith(y, action) then [y] else [])
  {
    assert [x, y][1..] == [y];
    assert [y][1..] == [];
  }

  /** The routing cases of the command-line tests. */
  lemma MatchActionExamples()
    ensures MatchAction([], "skjdf") == Err(InvalidAction("skjdf"))
    ensures MatchAction(["fooa", "foob"], "foo") == Err(VagueAction(["fooa", "foob"]))
    ensures MatchAction(["fooa", "foob"], "fooa") == Ok("fooa")
    ensures MatchAction(["foo"], "f") == Ok("foo")
  {
    assert StartsWith("fooa", "foo") && StartsWith("foob", "foo") by {
      assert "fooa"[..3] == "foo" && "foob"[..3] == "foo";
    }
    MatchesOfTwo("fooa", "foob", "foo");
    assert Matches(["fooa", "foob"], "foo") == ["fooa", "foob"];
    assert StartsWith("fooa", "fooa") && !StartsWith("foob", "fooa") by {
      assert "fooa"[..4] == "fooa";
      assert "foob"[..4][3] == 'b';
    }
    MatchesOfTwo("fooa", "foob", "fooa");
    assert StartsWith("foo", "f") by { assert "foo"[..1] == "f"; }
    assert Matches(["foo"], "f") == ["foo"] by { assert ["foo"][1..] == []; }
  }

  datatype PathError = InvalidCurioPath(path: string)

  /** `_resolve_key_path`: splits `entity:key` at its first `':'`; the key keeps any later
      `':'`. A path without `':'` is an error. */
  function ResolveKeyPath(path: string): (r: Result<(string, string), PathError>)
    ensures r.Err? <==> ':' !in path
    ensures r.Err? ==> r.error == InvalidCurioPath(path)
    ensures r.Ok? ==> ':' !in r.value.0 && path == r.value.0 + ":" + r.value.1
  {
    var entity := TakeUntil(path, ':');
    if |entity| == |path| then Err(InvalidCurioPath(path))
    else
      assert path == entity + [path[|entity|]] + path[|entity| + 1..];
      Ok((entity, path[|entity| + 1..]))
  }

  /** Resolving `entity:key` gives back the entity and the key, for any entity without `':'`. */
  lemma ResolveKeyPathRoundTrip(entity: string, key: string)
    requires ':' !in entity
    ensures ResolveKeyPath(entity + ":" + key) == Ok((entity, key))
  {
    var path := entity + ":" + key;
    assert path == entity + [':'] + key;
    TakeUntilPrefix(entity, ':', key);
    assert path[|entity| + 1..] == key;
  }

  /** The path cases of the command-line tests. */
  lemma ResolveKeyPathExamples()
    ensures ResolveKeyPath("foo") == Err(InvalidCurioPath("foo"))
    ensures ResolveKeyPath("foo:bar") == Ok(("foo", "bar"))
  {
    ResolveKeyPathRoundTrip("foo", "bar");
    assert "foo" + ":" + "bar" == "foo:bar";
  }

  /** The two readings of a location disagree when the key holds a `':'`: the positional
      arguments keep only the text up to the second `':'`, `_resolve_key_path` keeps all of it. */
  lemma KeyReadingsDiffer()
    ensures LocationSettings("e:k1:k2", RootAsWritten)["key"] == Some("k1")
    ensures ResolveKeyPath("e:k1:k2") == Ok(("e", "k1:k2"))
  {
    SplitThreeKeyed();
    SplitWithoutSep("e", '/');
    ResolveKeyPathRoundTrip("e", "k1:k2");
    assert "e" + ":" + "k1:k2" == "e:k1:k2";
  }

  lemma SplitThreeKeyed()
    ensures Split("e:k1:k2", ':') == ["e", "k1", "k2"]
  {
    assert "e:k1:k2" == "e" + [':'] + ("k1" + [':'] + "k2");
    SplitThree("e", "k1", "k2", ':');
  }

  /** Three separator-free texts joined by the separator split back into the three. */
  lemma SplitThree(x: string, y: string, z: string, sep: char)
    requires sep !in x && sep !in y && sep !in z
    ensures Split(x + [sep] + (y + [sep] + z), sep) == [x, y, z]
  {
    SplitAppend(x, sep, y + [sep] + z);
    SplitAppend(y, sep, z);
    SplitWithoutSep(x, sep);
    SplitWithoutSep(y, sep);
    SplitWithoutSep(z, sep);
  }

  /** What `_parse_action_data` returns: `None` for each missing position. */
  datatype ActionData = ActionData(action: Setting, entity: Setting, key: Setting, value: Setting)

  /** The caller's argument list, which `_parse_action_data` pops from. */
  class ArgList {
    var items: seq<string>

    constructor (items: seq<string>)
      ensures this.items == items
    {
      this.items := items;
    }

    /** `list.pop(0)` */
    method PopFront() returns (x: string)
      requires items != []
      modifies this
      ensures x == old(items)[0] && items == old(items)[1..]
    {
      x := items[0];
      items := items[1..];
    }
  }

  /** `_parse_action_data`: pops the action, the `entity:key` path and the value, as far as
      there are arguments. A path without `':'` fails after two arguments are popped. */
  method ParseActionData(args: ArgList) returns (r: Result<ActionData, PathError>)
    modifies args
    ensures |old(args.items)| >= 2 && ':' !in old(args.items)[1] ==>
      r == Err(InvalidCurioPath(old(args.items)[1])) && args.items == old(args.items)[2..]
    ensures r.Ok? <==> |old(args.items)| < 2 || ':' in old(args.items)[1]
    ensures r.Ok? ==> args.items == old(args.items)[if |old(args.items)| < 3 then |old(args.items)| else 3..]
    ensures r.Ok? ==> r.value.action == (if |old(args.items)| > 0 then Some(old(args.items)[0]) else None)
    ensures r.Ok? ==> r.value.value == (if |old(args.items)| > 2 then Some(old(args.items)[2]) else None)
    ensures r.Ok? && |old(args.items)| < 2 ==> r.value.entity == None && r.value.key == None
    ensures r.Ok? && |old(args.items)| >= 2 ==>
      r.value.entity.Some? && r.value.key.Some? && ':' !in r.value.entity.value &&
      old(args.items)[1] == r.value.entity.value + ":" + r.value.key.value
  {
    var action: Setting := None;
    var entity: Setting := None;
    var key: Setting := None;
    var value: Setting := None;
    if |args.items| > 0 {
      var a := args.PopFront();
      action := Some(a);
    }
    if |args.items| > 0 {
      var pathData := args.PopFront();
      var resolved := ResolveKeyPath(pathData);
      if resolved.Err? {
        return Err(resolved.error);
      }
      entity := Some(resolved.value.0);
      key := Some(resolved.value.1);
    }
    if |args.items| > 0 {
      var v := args.PopFront();
      value := Some(v);
    }
    return Ok(ActionData(action, entity, key, value));
  }

  predicate IsAsciiAlnum(c: char) {
    'A' <= c <= 'Z' || 'a' <= c <= 'z' || '0' <= c <= '9'
  }

  /** A character of `[\w\-\.]`, with `\w` the ASCII word characters. */
  predicate IsNameChar(c: char) {
    IsAsciiAlnum(c) || c == '_' || c == '-' || c == '.'
  }

  /** The text that `$` leaves for the rest of the pattern: `s` less one final `'\n'`. */
  function WithoutFinalNewline(s: string): (body: string)
    ensures s == body || s == body + ['\n']
  {
    if |s| > 0 && s[|s| - 1] == '\n' then s[..|s| - 1] else s
  }

  /** `VALID_NAME.match(s)`: a letter or digit, then letters, digits, `'_'`, `'-'` and `'.'`;
      since `$` also matches before a final newline, one trailing `'\n'` is accepted. */
  predicate ValidName(s: string)
    ensures ValidName(s) ==> s != "" && IsAsciiAlnum(s[0])
  {
    var body := WithoutFinalNewline(s);
    |body| > 0 && IsAsciiAlnum(body[0]) && forall i | 1 <= i < |body| :: IsNameChar(body[i])
  }

  /** A valid name holds no path or key separator and does not start with `'.'`, so it is
      one visible path component and one part of an `entity:key` path. */
  lemma ValidNameIsOneComponent(s: string)
    requires ValidName(s)
    ensures '/' !in s && ':' !in s
    ensures s[0] != '.'
  {
    var body := WithoutFinalNewline(s);
    assert forall i | 0 <= i < |body| :: body[i] != '/' && body[i] != ':' by {
      forall i | 0 <= i < |body| ensures body[i] != '/' && body[i] != ':' {
        if i > 0 { assert IsNameChar(body[i]); } else { assert IsAsciiAlnum(body[0]); }
      }
    }
    assert s == body || s == body + ['\n'];
    assert s[0] == body[0];
  }

  /** Names the pattern accepts and refuses. */
  lemma ValidNameExamples()
    ensures ValidName("my-db_2.old")
    ensures ValidName("db\n")
    ensures !ValidName("") && !ValidName(".hidden") && !ValidName("a/b") && !ValidName("a:b") && !ValidName("db\n\n")
  {
    var name := "my-db_2.old";
    forall i | 1 <= i < |name| ensures IsNameChar(name[i]) {
      assert name[i] in "y-db_2.old" by { assert name[i] == name[1..][i - 1]; }
    }
    assert WithoutFinalNewline("db\n") == "db" by { assert "db\n"[..2] == "db"; }
    assert IsNameChar("db"[1]);
    assert WithoutFinalNewline("db\n\n") == "db\n" by { assert "db\n\n"[..3] == "db\n"; }
    assert !IsNameChar(WithoutFinalNewline("db\n\n")[2]);
    assert WithoutFinalNewline(".hidden") == ".hidden";
    assert WithoutFinalNewline("a/b") == "a/b" && !IsNameChar(WithoutFinalNewline("a/b")[1]);
    assert WithoutFinalNewline("a:b") == "a:b" && !IsNameChar(WithoutFinalNewline("a:b")[1]);
  }

  /** The settings `validate_settings` requires for an action, in the order it checks them. */
  function RequiredSettings(action: string): (keys: seq<string>)
    requires action in RequiredOptions
    ensures |keys| >= 2 && keys[..2] == ["root", "db"]
    ensures forall k | k in keys :: k in ConfigDefaults
  {
    ["root", "db"] + RequiredOptions[action]
  }

  /** The message for a missing setting, naming its environment variable when it has one. */
  function RequiredMessage(key: string): (msg: string)
    ensures StartsWith(msg, key + " is required")
    ensures key !in EnvMapping ==> msg == key + " is required"
    ensures key in EnvMapping ==> msg == key + " is required" + " (environment variable " + EnvMapping[key] + ")"
  {
    var msg := key + " is required";
    var extra := if key in EnvMapping then " (environment variable " + EnvMapping[key] + ")" else "";
    assert (msg + extra)[..|msg|] == msg;
    msg + extra
  }

  /** `validate_settings`: fails on the first required setting that is missing or empty,
      with its message; passes when all are set. */
  method ValidateSettings(config: map<string, Setting>, action: string) returns (r: Outcome<string>)
    requires action in RequiredOptions
    ensures r.Pass? <==> forall k | k in RequiredSettings(action) :: Truthy(Lookup(config, k))
    ensures r.Fail? ==> exists i | 0 <= i < |RequiredSettings(action)| ::
      var keys := RequiredSettings(action);
      r.error == RequiredMessage(keys[i]) && !Truthy(Lookup(config, keys[i])) &&
      forall j | 0 <= j < i :: Truthy(Lookup(config, keys[j]))
  {
    var keys := RequiredSettings(action);
    var i := 0;
    while i < |keys|
      invariant 0 <= i <= |keys|
      invariant forall j | 0 <= j < i :: Truthy(Lookup(config, keys[j]))
    {
      if !Truthy(Lookup(config, keys[i])) {
        return Fail(RequiredMessage(keys[i]));
      }
      i := i + 1;
    }
    return Pass;
  }

  /** The settings `validate_names` checks for an action, in order. */
  function NamelikeSettings(action: string): (keys: seq<string>)
    requires action in RequiredNamelike
    ensures |keys| >= 1 && keys[0] == "db"
    ensures action in RequiredOptions && forall k | k in keys :: k in RequiredSettings(action)
  {
    ["db"] + RequiredNamelike[action]
  }

  /** A setting `validate_names` refuses: set, non-empty and not a valid name. */
  predicate BadName(v: Setting) {
    Truthy(v) && !ValidName(v.value)
  }

  function InvalidNameMessage(key: string, val: string): (msg: string)
    ensures StartsWith(msg, "invalid name for " + key)
    ensures |msg| >= |val| + 2 && msg[|msg| - |val| - 1..|msg| - 1] == val && msg[|msg| - 1] == '\''
  {
    var head := "invalid name for " + key;
    head + (": '" + val + "'")
  }

  /** `validate_names`: skips unset and empty settings and fails on the first one that is
      not a valid name, with a message naming the key and the value. */
  method ValidateNames(config: map<string, Setting>, action: string) returns (r: Outcome<string>)
    requires action in RequiredNamelike
    ensures r.Pass? <==> forall k | k in NamelikeSettings(action) :: !BadName(Lookup(config, k))
    ensures r.Fail? ==> exists i | 0 <= i < |NamelikeSettings(action)| ::
      var keys := NamelikeSettings(action);
      BadName(Lookup(config, keys[i])) && r.error == InvalidNameMessage(keys[i], Lookup(config, keys[i]).value) &&
      forall j | 0 <= j < i :: !BadName(Lookup(config, keys[j]))
  {
    var keys := NamelikeSettings(action);
    var i := 0;
    while i < |keys|
      invariant 0 <= i <= |keys|
      invariant forall j | 0 <= j < i :: !BadName(Lookup(config, keys[j]))
    {
      var val := Lookup(config, keys[i]);
      if Truthy(val) && !ValidName(val.value) {
        return Fail(InvalidNameMessage(keys[i], val.value));
      }
      i := i + 1;
    }
    return Pass;
  }

  /** With the defaults alone, `db` is missing, whatever the action. */
  lemma DefaultsLackDb(action: string)
    requires action in RequiredOptions
    ensures !Truthy(Lookup(ConfigDefaults, RequiredSettings(action)[1]))
  {
  }
}
