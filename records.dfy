/**
 * The record convention of `Curio`: a missing file is the record `{'__name__': name}`, a
 * record with nothing but `'__name__'` is stored by removing its file, and any other
 * record is written out whole.
 */
module Records {
  import opened Wrappers
  import opened Strings
  import opened Values
  import opened FileSystem
  import opened Layout

  /** `load_target`: unpickle the file at `p`. */
  function LoadTarget(disk: Disk, p: Path): (r: Result<Record, Error>)
    requires p in disk.files
    ensures r.Ok? <==> disk.files[p].Pickled?
    ensures r.Ok? ==> r.value == disk.files[p].record
    ensures r.Err? ==> r.error == UnpicklingError(p)
  {
    match disk.files[p]
    case Pickled(rec) => Ok(rec)
    case Unreadable => Err(UnpicklingError(p))
  }

  /** `Curio.load`: the stored record of `name`, or only its name when it has no file. */
  function Load(db: Curio, disk: Disk, name: string): (r: Result<Record, Error>)
    ensures GenerateTarget(db, name) !in disk.files ==> r == Ok(BaseRecord(name))
    ensures GenerateTarget(db, name) in disk.files ==> r == LoadTarget(disk, GenerateTarget(db, name))
  {
    var target := GenerateTarget(db, name);
    if target in disk.files then LoadTarget(disk, target)
    else Ok(BaseRecord(name))
  }

  /** A record holding some key other than `'__name__'`. */
  predicate HasUserData(rec: Record) {
    exists k | k in rec :: k != NameKey
  }

  /** Stamping `'__name__'` neither adds nor removes user data. */
  lemma StampKeepsUserData(rec: Record, v: Value)
    ensures HasUserData(rec[NameKey := v]) <==> HasUserData(rec)
  {
    if HasUserData(rec) {
      var k :| k in rec && k != NameKey;
      assert k in rec[NameKey := v];
    }
  }

  /** `dump_target`: remove the file of a record whose only key is `'__name__'` (an error
      when there is no such file), otherwise replace the file's content with the record
      (an error when the path is a directory or its directory is missing). Nothing else
      on the disk changes. */
  function DumpTarget(disk: Disk, data: Record, target: Path): (r: Result<Disk, Error>)
    ensures data.Keys == {NameKey} ==> (r.Ok? <==> target in disk.files)
    ensures data.Keys != {NameKey} ==> (r.Ok? <==> target !in disk.dirs && target != [] && Parent(target) in disk.dirs)
    ensures r.Ok? && data.Keys == {NameKey} ==> target !in r.value.files
    ensures r.Ok? && data.Keys != {NameKey} ==> target in r.value.files && r.value.files[target] == Pickled(data)
    ensures r.Ok? ==> SameElsewhere(disk, r.value, target)
    ensures Valid(disk) && r.Ok? ==> Valid(r.value)
  {
    if data.Keys == {NameKey} then Remove(disk, target)
    else WriteRecord(disk, target, data)
  }

  /** `Curio.dump`: stamp `'__name__'` with `name` and store the record at the target of
      `name`. Loading the name afterwards gives back exactly the stamped record, and the
      file exists exactly when the record holds some other key. */
  function Dump(db: Curio, disk: Disk, data: Record, name: string): (r: Result<Disk, Error>)
    ensures var stamped := data[NameKey := Str(name)];
      && (r.Ok? ==> Load(db, r.value, name) == Ok(stamped))
      && (HasUserData(stamped) ==>
           (r.Ok? <==> GenerateTarget(db, name) !in disk.dirs && Parent(GenerateTarget(db, name)) in disk.dirs))
      && (!HasUserData(stamped) ==> (r.Ok? <==> GenerateTarget(db, name) in disk.files))
      && (r.Ok? ==> (GenerateTarget(db, name) in r.value.files <==> HasUserData(stamped)))
      && (r.Ok? && HasUserData(stamped) ==> r.value.files[GenerateTarget(db, name)] == Pickled(stamped))
      && (r.Ok? ==> SameElsewhere(disk, r.value, GenerateTarget(db, name)))
      && (Valid(disk) && r.Ok? ==> Valid(r.value))
  {
    var target := GenerateTarget(db, name);
    var stamped := data[NameKey := Str(name)];
    var r := DumpTarget(disk, stamped, target);
    assert r.Ok? ==> Load(db, r.value, name) == Ok(stamped) by {
      if r.Ok? && stamped.Keys == {NameKey} {
        assert stamped == BaseRecord(name);
      }
    }
    assert HasUserData(stamped) <==> stamped.Keys != {NameKey} by {
      if stamped.Keys != {NameKey} {
        var k :| k in stamped.Keys && k != NameKey;
      }
    }
    r
  }

  /** `Curio.walk`: every file below the root whose name does not start with `'.'`. */
  function Walk(db: Curio, disk: Disk): (paths: set<Path>)
    ensures forall p | p in paths :: p in disk.files && IsUnder(p, db.root)
  {
    set p | p in disk.files && IsUnder(p, db.root) && !StartsWith(p[|p| - 1], ".")
  }

  /** `walk` visits every file below the root except those whose name starts with `'.'`. */
  lemma WalkVisits(db: Curio, disk: Disk)
    ensures forall p | p in disk.files && IsUnder(p, db.root) ::
      (p in Walk(db, disk) <==> !StartsWith(p[|p| - 1], "."))
  {
  }

  /** No digest starts with `'.'`, so the walk never skips a record file. */
  lemma TargetIsWalked(db: Curio, disk: Disk, name: string)
    requires GenerateTarget(db, name) in disk.files
    ensures GenerateTarget(db, name) in Walk(db, disk)
  {
    var target := GenerateTarget(db, name);
    var h := db.sha(name);
    assert h[0] in HexLowercase;
    assert target[|target| - 1][..1] == [h[0]];
  }
}
