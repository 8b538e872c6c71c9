/**
 * `CurioManager`: `get`, `set` and `delete` run a load, a change to the loaded dict and a
 * dump; `find` walks every record and filters it by name and key patterns.
 */
module Engine {
  import opened Wrappers
  import opened Values
  import opened FileSystem
  import opened Layout
  import opened Records

  /** The entity name a record stores, when it stores one as a string. */
  function NameOf(rec: Record): Option<string> {
    if NameKey in rec && rec[NameKey].Str? then Some(rec[NameKey].s) else None
  }

  /** A file `find` can read: a pickled record with a string `'__name__'`. */
  predicate Readable(c: Content) {
    c.Pickled? && NameOf(c.record).Some?
  }

  /** The store invariant: every walked file is a record stored at the target of its own
      name. The engine keeps it; files put there by anyone else may break it. */
  predicate WellFormed(db: Curio, disk: Disk) {
    forall p | p in Walk(db, disk) ::
      Readable(disk.files[p]) && GenerateTarget(db, NameOf(disk.files[p].record).value) == p
  }

  /** A store with no file below its root, such as one `initialize_db` has just made on an
      empty disk, satisfies the store invariant. */
  lemma NoRecordsIsWellFormed(db: Curio, disk: Disk)
    requires forall p | p in disk.files :: !IsUnder(p, db.root)
    ensures WellFormed(db, disk)
  {
    assert Walk(db, disk) == {};
  }

  /** Replacing the record at the target of `name` by one stamped with `name`, or removing
      it, keeps the store invariant. */
  lemma WellFormedAfterDump(db: Curio, disk: Disk, disk': Disk, name: string)
    requires WellFormed(db, disk)
    requires SameElsewhere(disk, disk', GenerateTarget(db, name))
    requires GenerateTarget(db, name) in disk'.files ==>
      disk'.files[GenerateTarget(db, name)].Pickled? &&
      NameOf(disk'.files[GenerateTarget(db, name)].record) == Some(name)
    ensures WellFormed(db, disk')
  {
    var target := GenerateTarget(db, name);
    forall p | p in Walk(db, disk')
      ensures Readable(disk'.files[p]) && GenerateTarget(db, NameOf(disk'.files[p].record).value) == p
    {
      if p != target {
        assert p in disk.files - {target};
        assert p in Walk(db, disk);
      }
    }
  }

  /** `CurioManager.get`: the value stored under `key`, or `None` when there is none. */
  function Get(db: Curio, disk: Disk, name: string, key: string): (r: Result<Value, Error>)
    ensures Load(db, disk, name).Err? <==> r.Err?
    ensures r.Ok? && key in Load(db, disk, name).value ==> r.value == Load(db, disk, name).value[key]
    ensures r.Ok? && key !in Load(db, disk, name).value ==> r.value == PyNone
    ensures GenerateTarget(db, name) !in disk.files ==> r == Ok(if key == NameKey then Str(name) else PyNone)
  {
    var entity := Load(db, disk, name);
    if entity.Err? then Err(entity.error)
    else if key in entity.value then Ok(entity.value[key])
    else Ok(PyNone)
  }

  /** `CurioManager.set`: the stored record becomes the previous one (or only the name)
      with `key` set to `value` and `'__name__'` stamped again; nothing else on the disk
      changes. Setting a user key always leaves a file behind, and fails only when the
      record cannot be read or its file cannot be opened for writing. */
  method Set(db: Curio, disk: Disk, name: string, key: string, value: Value) returns (r: Result<Disk, Error>)
    ensures Load(db, disk, name).Err? ==> r == Err(Load(db, disk, name).error)
    ensures r.Ok? ==> Load(db, r.value, name) == Ok(Load(db, disk, name).value[key := value][NameKey := Str(name)])
    ensures r.Ok? && key != NameKey ==> Get(db, r.value, name, key) == Ok(value)
    ensures r.Ok? && key != NameKey ==>
      forall k | k != key && k != NameKey :: Get(db, r.value, name, k) == Get(db, disk, name, k)
    ensures var target := GenerateTarget(db, name);
      Load(db, disk, name).Ok? && HasUserData(Load(db, disk, name).value[key := value]) ==>
        (r.Ok? <==> target !in disk.dirs && Parent(target) in disk.dirs)
    ensures r.Ok? && key != NameKey ==> GenerateTarget(db, name) in r.value.files
    ensures var target := GenerateTarget(db, name);
      Load(db, disk, name).Ok? && !HasUserData(Load(db, disk, name).value[key := value]) ==>
        (r.Ok? <==> target in disk.files)
    ensures r.Ok? ==>
      (GenerateTarget(db, name) in r.value.files <==> HasUserData(Load(db, disk, name).value[key := value]))
    ensures r.Ok? ==> SameElsewhere(disk, r.value, GenerateTarget(db, name))
    ensures r.Ok? && Valid(disk) ==> Valid(r.value)
    ensures r.Ok? && WellFormed(db, disk) ==> WellFormed(db, r.value)
  {
    var loaded := Load(db, disk, name);
    if loaded.Err? {
      return Err(loaded.error);
    }
    var entity := loaded.value;
    entity := entity[key := value];
    r := Dump(db, disk, entity, name);
    StampKeepsUserData(entity, Str(name));
    assert key != NameKey ==> key in entity[NameKey := Str(name)];
    if r.Ok? {
      if WellFormed(db, disk) {
        WellFormedAfterDump(db, disk, r.value, name);
      }
    }
  }

  /** `CurioManager.delete`: the stored record loses `key` if it had it and is stamped
      again; nothing else on the disk changes. When no user key remains the file is
      removed, which fails for an entity that never had a file. Deleting a key that is
      not there from a stored, stamped record leaves the disk as it was. */
  method Delete(db: Curio, disk: Disk, name: string, key: string) returns (r: Result<Disk, Error>)
    ensures Load(db, disk, name).Err? ==> r == Err(Load(db, disk, name).error)
    ensures r.Ok? ==> Load(db, r.value, name) == Ok((Load(db, disk, name).value - {key})[NameKey := Str(name)])
    ensures r.Ok? && key != NameKey ==> Get(db, r.value, name, key) == Ok(PyNone)
    ensures r.Ok? && key != NameKey ==>
      forall k | k != key && k != NameKey :: Get(db, r.value, name, k) == Get(db, disk, name, k)
    ensures GenerateTarget(db, name) !in disk.files ==> r.Err?
    ensures Valid(disk) && Load(db, disk, name).Ok? ==> (r.Ok? <==> GenerateTarget(db, name) in disk.files)
    ensures r.Ok? ==>
      (GenerateTarget(db, name) in r.value.files <==> HasUserData(Load(db, disk, name).value - {key}))
    ensures var target := GenerateTarget(db, name);
      target in disk.files && disk.files[target].Pickled? && Valid(disk) ==>
        var rec := disk.files[target].record;
        key !in rec && NameOf(rec) == Some(name) && HasUserData(rec) ==> r == Ok(disk)
    ensures r.Ok? ==> SameElsewhere(disk, r.value, GenerateTarget(db, name))
    ensures r.Ok? && Valid(disk) ==> Valid(r.value)
    ensures r.Ok? && WellFormed(db, disk) ==> WellFormed(db, r.value)
  {
    var loaded := Load(db, disk, name);
    if loaded.Err? {
      return Err(loaded.error);
    }
    var entity := loaded.value;
    if key in entity {
      entity := entity - {key};
    }
    assert entity == loaded.value - {key};
    r := Dump(db, disk, entity, name);
    StampKeepsUserData(entity, Str(name));
    var target := GenerateTarget(db, name);
    if target !in disk.files {
      assert entity[NameKey := Str(name)].Keys == {NameKey};
    }
    if r.Ok? {
      if WellFormed(db, disk) {
        WellFormedAfterDump(db, disk, r.value, name);
      }
      if target in disk.files && disk.files[target].Pickled? && Valid(disk) {
        var rec := disk.files[target].record;
        if key !in rec && NameOf(rec) == Some(name) && HasUserData(rec) {
          assert entity[NameKey := Str(name)] == rec;
          assert r.value.files == disk.files;
        }
      }
    }
  }

  /** The name of a record `find` can read. */
  function EntityName(c: Content): string
    requires Readable(c)
  {
    NameOf(c.record).value
  }

  /** `entity_name or r'.*'`: a missing or empty pattern becomes `.*`. */
  function EffectivePattern(pattern: Option<string>): (p: string)
    ensures p != ""
    ensures pattern.Some? && pattern.value != "" ==> p == pattern.value
    ensures pattern.None? || pattern.value == "" ==> p == ".*"
  {
    if pattern.Some? && pattern.value != "" then pattern.value else ".*"
  }

  /** The entries of `rec` that `find` reports: keys the key pattern matches and that
      are not private, so never `'__name__'`. */
  function PublicMatches(rec: Record, keyPattern: string, reMatch: (string, string) -> bool): (found: map<string, Value>)
    ensures NameKey !in found
    ensures forall k | k in found :: k in rec && found[k] == rec[k] && !IsPrivate(k) && reMatch(keyPattern, k)
    ensures forall k | k in rec && !IsPrivate(k) && reMatch(keyPattern, k) :: k in found
  {
    map k | k in rec && reMatch(keyPattern, k) && !IsPrivate(k) :: rec[k]
  }

  /** The names of the readable records among `paths` that the entity pattern matches. */
  function MatchedNames(disk: Disk, paths: set<Path>, entityPattern: string, reMatch: (string, string) -> bool): set<string>
  {
    set p | p in paths && p in disk.files && Readable(disk.files[p]) && reMatch(entityPattern, EntityName(disk.files[p]))
      :: EntityName(disk.files[p])
  }

  /** The record stored at `p`, or none. */
  function RecordAt(disk: Disk, p: Path): Record {
    if p in disk.files && disk.files[p].Pickled? then disk.files[p].record else map[]
  }

  lemma RecordAtPickled(disk: Disk, p: Path)
    requires p in disk.files && disk.files[p].Pickled?
    ensures RecordAt(disk, p) == disk.files[p].record
  {
  }

  /** What `find` returns on a well-formed store: every matched entity, with the public
      entries of its record that the key pattern matches. */
  function Selection(db: Curio, disk: Disk, entityPattern: string, keyPattern: string, reMatch: (string, string) -> bool): map<string, map<string, Value>>
  {
    map n | n in MatchedNames(disk, Walk(db, disk), entityPattern, reMatch) ::
      PublicMatches(RecordAt(disk, GenerateTarget(db, n)), keyPattern, reMatch)
  }

  /** The inner loop of `find`: the entries of one record whose key the key pattern
      matches and that are not private. */
  method MatchingKeys(entity: Record, keyRe: string, reMatch: (string, string) -> bool)
    returns (found: map<string, Value>)
    ensures found == PublicMatches(entity, keyRe, reMatch)
  {
    found := map[];
    var keys := entity.Keys;
    while keys != {}
      invariant keys <= entity.Keys
      invariant found == map k | k in entity && k !in keys && reMatch(keyRe, k) && !IsPrivate(k) :: entity[k]
    {
      var key :| key in keys;
      if reMatch(keyRe, key) && !IsPrivate(key) {
        found := found[key := entity[key]];
      }
      keys := keys - {key};
    }
  }

  /** Some readable record among `paths` is named `n` and has `found` as its reported entries. */
  predicate Witnessed(disk: Disk, paths: set<Path>, n: string, found: map<string, Value>,
                      keyRe: string, reMatch: (string, string) -> bool)
  {
    exists p | p in paths && p in disk.files && Readable(disk.files[p]) ::
      EntityName(disk.files[p]) == n && found == PublicMatches(disk.files[p].record, keyRe, reMatch)
  }

  lemma WitnessedGrows(disk: Disk, paths: set<Path>, more: set<Path>, n: string, found: map<string, Value>,
                       keyRe: string, reMatch: (string, string) -> bool)
    requires Witnessed(disk, paths, n, found, keyRe, reMatch)
    ensures Witnessed(disk, paths + more, n, found, keyRe, reMatch)
  {
    var p :| p in paths && p in disk.files && Readable(disk.files[p]) &&
      EntityName(disk.files[p]) == n && found == PublicMatches(disk.files[p].record, keyRe, reMatch);
    assert p in paths + more;
  }

  lemma MatchedNamesAdd(disk: Disk, paths: set<Path>, p: Path, entityRe: string, reMatch: (string, string) -> bool)
    requires p in disk.files && Readable(disk.files[p])
    ensures var name := EntityName(disk.files[p]);
      MatchedNames(disk, paths + {p}, entityRe, reMatch) ==
        MatchedNames(disk, paths, entityRe, reMatch) + (if reMatch(entityRe, name) then {name} else {})
  {
  }

  /** One record taken into the scan: its name is added when the entity pattern matches it,
      with its reported entries, and every earlier entry stays witnessed. */
  lemma ScanStep(disk: Disk, seen: set<Path>, p: Path, results: map<string, map<string, Value>>,
                 entityRe: string, keyRe: string, reMatch: (string, string) -> bool)
    requires p in disk.files && Readable(disk.files[p])
    requires results.Keys == MatchedNames(disk, seen, entityRe, reMatch)
    requires forall n | n in results :: Witnessed(disk, seen, n, results[n], keyRe, reMatch)
    ensures var name := EntityName(disk.files[p]);
      var results' := if reMatch(entityRe, name)
        then results[name := PublicMatches(disk.files[p].record, keyRe, reMatch)] else results;
      && results'.Keys == MatchedNames(disk, seen + {p}, entityRe, reMatch)
      && forall n | n in results' :: Witnessed(disk, seen + {p}, n, results'[n], keyRe, reMatch)
  {
    var name := EntityName(disk.files[p]);
    MatchedNamesAdd(disk, seen, p, entityRe, reMatch);
    forall n | n in results ensures Witnessed(disk, seen + {p}, n, results[n], keyRe, reMatch) {
      WitnessedGrows(disk, seen, {p}, n, results[n], keyRe, reMatch);
    }
    assert Witnessed(disk, seen + {p}, name, PublicMatches(disk.files[p].record, keyRe, reMatch), keyRe, reMatch);
  }

  /** On a well-formed store each matched name has one record, at its target. */
  lemma WitnessesMakeSelection(db: Curio, disk: Disk, results: map<string, map<string, Value>>,
                               entityRe: string, keyRe: string, reMatch: (string, string) -> bool)
    requires WellFormed(db, disk)
    requires results.Keys == MatchedNames(disk, Walk(db, disk), entityRe, reMatch)
    requires forall n | n in results :: Witnessed(disk, Walk(db, disk), n, results[n], keyRe, reMatch)
    ensures results == Selection(db, disk, entityRe, keyRe, reMatch)
  {
    var sel := Selection(db, disk, entityRe, keyRe, reMatch);
    assert sel.Keys == results.Keys;
    forall n | n in results ensures results[n] == sel[n] {
      var q :| q in Walk(db, disk) && q in disk.files && Readable(disk.files[q]) &&
        EntityName(disk.files[q]) == n && results[n] == PublicMatches(disk.files[q].record, keyRe, reMatch);
      WalkedRecordIsAtTarget(db, disk, q, n);
    }
  }

  /** On a well-formed store, a walked record named `n` is the record at the target of `n`. */
  lemma WalkedRecordIsAtTarget(db: Curio, disk: Disk, q: Path, n: string)
    requires WellFormed(db, disk)
    requires q in Walk(db, disk) && q in disk.files && Readable(disk.files[q]) && EntityName(disk.files[q]) == n
    ensures RecordAt(disk, GenerateTarget(db, n)) == disk.files[q].record
  {
    assert NameOf(disk.files[q].record).value == n;
    assert GenerateTarget(db, n) == q;
    RecordAtPickled(disk, q);
  }

  /** `CurioManager.find`: walks every record; a record `find` cannot read aborts the
      whole search. Otherwise the result names exactly the walked entities the entity
      pattern matches, each with the public entries of its record that the key pattern
      matches (possibly none). `reMatch(pattern, s)` stands for `re.compile(pattern).match(s)`. */
  method Find(db: Curio, disk: Disk, entityPattern: Option<string>, keyPattern: Option<string>,
              reMatch: (string, string) -> bool)
    returns (r: Result<map<string, map<string, Value>>, Error>)
    ensures r.Err? <==> exists p | p in Walk(db, disk) :: !Readable(disk.files[p])
    ensures r.Ok? ==> r.value.Keys == MatchedNames(disk, Walk(db, disk), EffectivePattern(entityPattern), reMatch)
    ensures r.Ok? ==> forall n | n in r.value ::
      Witnessed(disk, Walk(db, disk), n, r.value[n], EffectivePattern(keyPattern), reMatch)
    ensures WellFormed(db, disk) ==>
      r == Ok(Selection(db, disk, EffectivePattern(entityPattern), EffectivePattern(keyPattern), reMatch))
  {
    var entityRe := EffectivePattern(entityPattern);
    var keyRe := EffectivePattern(keyPattern);
    r := ScanRecords(db, disk, entityRe, keyRe, reMatch);
    if r.Ok? && WellFormed(db, disk) {
      WitnessesMakeSelection(db, disk, r.value, entityRe, keyRe, reMatch);
    }
    if WellFormed(db, disk) {
      assert forall p | p in Walk(db, disk) :: Readable(disk.files[p]);
    }
  }

  /** The loops of `find` over the walked records, with the patterns already defaulted. */
  method ScanRecords(db: Curio, disk: Disk, entityRe: string, keyRe: string, reMatch: (string, string) -> bool)
    returns (r: Result<map<string, map<string, Value>>, Error>)
    ensures r.Err? <==> exists p | p in Walk(db, disk) :: !Readable(disk.files[p])
    ensures r.Ok? ==> r.value.Keys == MatchedNames(disk, Walk(db, disk), entityRe, reMatch)
    ensures r.Ok? ==> forall n | n in r.value :: Witnessed(disk, Walk(db, disk), n, r.value[n], keyRe, reMatch)
  {
    var results: map<string, map<string, Value>> := map[];
    var pending := Walk(db, disk);
    ghost var seen: set<Path> := {};
    while pending != {}
      invariant pending <= Walk(db, disk) && seen == Walk(db, disk) - pending
      invariant forall p | p in seen :: Readable(disk.files[p])
      invariant results.Keys == MatchedNames(disk, seen, entityRe, reMatch)
      invariant forall n | n in results :: Witnessed(disk, seen, n, results[n], keyRe, reMatch)
    {
      var p :| p in pending;
      var loaded := LoadTarget(disk, p);
      if loaded.Err? {
        return Err(loaded.error);
      }
      var entity := loaded.value;
      if NameKey !in entity || !entity[NameKey].Str? {
        return Err(MissingName(p));
      }
      var name := entity[NameKey].s;
      assert Readable(disk.files[p]) && EntityName(disk.files[p]) == name;
      ScanStep(disk, seen, p, results, entityRe, keyRe, reMatch);
      pending := pending - {p};
      seen := seen + {p};
      if !reMatch(entityRe, name) {
        continue;
      }
      var found := MatchingKeys(entity, keyRe, reMatch);
      results := results[name := found];
    }
    r := Ok(results);
  }

  /** An entity whose record is stored at its target is found by any entity pattern that
      matches its name, with the public entries of that record the key pattern matches. */
  lemma StoredEntityIsFound(db: Curio, disk: Disk, name: string, entityRe: string, keyRe: string,
                            reMatch: (string, string) -> bool)
    requires WellFormed(db, disk)
    requires GenerateTarget(db, name) in disk.files
    requires disk.files[GenerateTarget(db, name)].Pickled?
    requires NameOf(disk.files[GenerateTarget(db, name)].record) == Some(name)
    requires reMatch(entityRe, name)
    ensures name in Selection(db, disk, entityRe, keyRe, reMatch)
    ensures Selection(db, disk, entityRe, keyRe, reMatch)[name] ==
      PublicMatches(disk.files[GenerateTarget(db, name)].record, keyRe, reMatch)
  {
    var target := GenerateTarget(db, name);
    TargetIsWalked(db, disk, name);
    assert EntityName(disk.files[target]) == name;
    assert name in MatchedNames(disk, Walk(db, disk), entityRe, reMatch);
  }

  /** With both patterns left empty (`.*` matching every string), `find` on a well-formed
      store reports every walked entity with all of its public entries. */
  lemma DefaultPatternsFindEverything(db: Curio, disk: Disk, reMatch: (string, string) -> bool)
    requires WellFormed(db, disk)
    requires forall s :: reMatch(".*", s)
    ensures var sel := Selection(db, disk, EffectivePattern(None), EffectivePattern(None), reMatch);
      forall p | p in Walk(db, disk) ::
        && EntityName(disk.files[p]) in sel
        && sel[EntityName(disk.files[p])] == map k | k in disk.files[p].record && !IsPrivate(k) :: disk.files[p].record[k]
  {
    var sel := Selection(db, disk, ".*", ".*", reMatch);
    forall p | p in Walk(db, disk)
      ensures EntityName(disk.files[p]) in sel
      ensures sel[EntityName(disk.files[p])] == map k | k in disk.files[p].record && !IsPrivate(k) :: disk.files[p].record[k]
    {
      var name := EntityName(disk.files[p]);
      assert GenerateTarget(db, name) == p;
      StoredEntityIsFound(db, disk, name, ".*", ".*", reMatch);
      EveryKeyMatches(disk.files[p].record, reMatch);
    }
  }

  /** With a key pattern that matches every key, the reported entries are the public ones. */
  lemma EveryKeyMatches(rec: Record, reMatch: (string, string) -> bool)
    requires forall s :: reMatch(".*", s)
    ensures PublicMatches(rec, ".*", reMatch) == map k | k in rec && !IsPrivate(k) :: rec[k]
  {
  }

  /** Private keys never show up, whatever the key pattern: with any pattern that matches
      `visible`, `{_internal: 1, visible: 2}` is reported as `{visible: 2}`. */
  lemma PrivateKeysAreHidden(name: string, pattern: string, reMatch: (string, string) -> bool)
    requires reMatch(pattern, "visible")
    ensures PublicMatches(map[NameKey := Str(name), "_internal" := Int(1), "visible" := Int(2)], pattern, reMatch)
         == map["visible" := Int(2)]
  {
    var rec := map[NameKey := Str(name), "_internal" := Int(1), "visible" := Int(2)];
    var found := PublicMatches(rec, pattern, reMatch);
    assert IsPrivate(NameKey) && IsPrivate("_internal") && !IsPrivate("visible");
    assert found.Keys == {"visible"};
  }
}
