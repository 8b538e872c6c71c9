/**
 * The on-disk layout of a store: an entity's record lives at `root/h[0]/h`, where `h` is
 * the SHA-1 hex digest (FIPS 180-4) of the entity name, and the store root holds one
 * shard directory per lowercase hex digit.
 */
module Layout {
  import opened Wrappers
  import opened FileSystem

  /** The sixteen shard directory names, in the order they are created. */
  const HexLowercase: string := "abcdef0123456789"

  predicate IsHexDigest(h: string) {
    |h| == 40 && forall i | 0 <= i < |h| :: h[i] in HexLowercase
  }

  /** The value of `sha1(name).hexdigest()`: 40 lowercase hex characters. */
  type Digest = h: string | IsHexDigest(h)
    witness "0000000000000000000000000000000000000000"

  /** SHA-1 itself is not modelled: any function from names to digests will do. */
  type Hasher = string -> Digest

  /** A `Curio` database handle: its root directory and the hash it names files by. */
  datatype Curio = Curio(root: Path, sha: Hasher)

  /** `root/0` ... `root/f`: the directories `create_hex_dirs(root)` makes. */
  function ShardDirs(root: Path): set<Path>
  {
    set c | c in HexLowercase :: root + [[c]]
  }

  /** `generate_target`: where the record of `name` lives. The path depends on nothing but
      the root and the name; its file name is the digest and it sits in the shard
      directory of the digest's first character. */
  function GenerateTarget(db: Curio, name: string): (target: Path)
    ensures |target| == |db.root| + 2 && IsUnder(target, db.root)
    ensures Parent(target) == db.root + [[db.sha(name)[0]]] && Parent(target) in ShardDirs(db.root)
    ensures target[|target| - 1] == db.sha(name)
  {
    var h := db.sha(name);
    assert h[0] in HexLowercase;
    assert Parent(db.root + [[h[0]], h]) == db.root + [[h[0]]];
    db.root + [[h[0]], h]
  }

  /** Two names share a target exactly when their digests are equal. */
  lemma TargetDeterminesDigest(db: Curio, a: string, b: string)
    ensures GenerateTarget(db, a) == GenerateTarget(db, b) <==> db.sha(a) == db.sha(b)
  {
    var ta, tb := GenerateTarget(db, a), GenerateTarget(db, b);
    if ta == tb {
      assert ta[|ta| - 1] == tb[|tb| - 1];
    }
  }

  /** Every non-empty leading part of an existing directory is an existing directory. */
  lemma PrefixesOfDirAreDirs(disk: Disk, d: Path)
    requires Valid(disk) && d in disk.dirs
    ensures Prefixes(d) <= disk.dirs
  {
    forall q | q in Prefixes(d) ensures q in disk.dirs {
      var i :| 1 <= i <= |d| && q == d[..i];
      AncestorsOfDirAreDirs(disk, d, i);
    }
  }

  /** `mkdir_p`: `os.makedirs`, except that a directory which already exists is not an
      error. Any other failure, such as the path existing as a file, is re-raised. */
  function MkdirP(disk: Disk, p: Path): (r: Result<Disk, Error>)
    ensures p in disk.dirs ==> r == Ok(disk)
    ensures p in disk.files && p !in disk.dirs ==> r == Err(OsError(EEXIST, p))
    ensures r.Ok? ==> p in r.value.dirs && r.value.files == disk.files
    ensures Valid(disk) && r.Ok? ==> r.value.dirs == disk.dirs + Prefixes(p)
    ensures r.Err? ==> r.error.OsError?
    ensures Valid(disk) && r.Ok? ==> Valid(r.value)
    ensures Valid(disk) ==> (r.Ok? <==> forall i | 1 <= i <= |p| :: p[..i] !in disk.files)
  {
    var made := MakeDirs(disk, p);
    assert Valid(disk) ==> (made.Ok? || p in disk.dirs <==> forall i | 1 <= i <= |p| :: p[..i] !in disk.files) by {
      if Valid(disk) {
        if p in disk.dirs {
          forall i | 1 <= i <= |p| ensures p[..i] !in disk.files {
            AncestorsOfDirAreDirs(disk, p, i);
          }
        } else if p != [] && p !in disk.files && !(exists i | 0 < i < |p| :: p[..i] in disk.files) {
          forall i | 1 <= i <= |p| ensures p[..i] !in disk.files {
            if i == |p| { assert p[..i] == p; }
          }
        } else if p != [] && p in disk.files {
          assert p[..|p|] == p;
        }
      }
    }
    assert Valid(disk) && p in disk.dirs ==> Prefixes(p) <= disk.dirs by {
      if Valid(disk) && p in disk.dirs {
        PrefixesOfDirAreDirs(disk, p);
      }
    }
    match made
    case Ok(d) => Ok(d)
    case Err(e) => if p in disk.dirs then Ok(disk) else Err(e)
  }

  /** Creating a directory that `mkdir_p` has just created changes nothing. */
  lemma MkdirPIdempotent(disk: Disk, p: Path)
    requires MkdirP(disk, p).Ok?
    ensures var once := MkdirP(disk, p).value; MkdirP(once, p) == Ok(once)
  {
  }

  /** The shard directories of `parent` for the first `n` digits of `HexLowercase`. */
  function ShardsUpTo(parent: Path, n: nat): set<Path>
    requires n <= |HexLowercase|
  {
    set j | 0 <= j < n :: parent + [[HexLowercase[j]]]
  }

  /** The position in `HexLowercase`, from `i` on, of the first shard of `parent` that is a
      file, or 16 when there is none: where `create_hex_dirs` stops. */
  function FirstFileShard(files: map<Path, Content>, parent: Path, i: nat): (n: nat)
    requires i <= |HexLowercase|
    ensures i <= n <= |HexLowercase|
    ensures forall j | i <= j < n :: parent + [[HexLowercase[j]]] !in files
    ensures n < |HexLowercase| ==> parent + [[HexLowercase[n]]] in files
    decreases |HexLowercase| - i
  {
    if i == |HexLowercase| || parent + [[HexLowercase[i]]] in files then i
    else FirstFileShard(files, parent, i + 1)
  }

  /** `create_hex_dirs(parent)`: `mkdir_p(parent)`, then `mkdir_p` of each shard directory
      in the order of `HexLowercase`. The first failure is raised, and the directories made
      before it stay on the disk. */
  method CreateHexDirs(disk: Disk, parent: Path) returns (after: Disk, r: Outcome<Error>)
    requires Valid(disk)
    ensures Valid(after) && after.files == disk.files
    ensures MkdirP(disk, parent).Err? ==> after == disk && r == Fail(MkdirP(disk, parent).error)
    ensures MkdirP(disk, parent).Ok? ==>
      var n := FirstFileShard(disk.files, parent, 0);
      && after.dirs == disk.dirs + Prefixes(parent) + ShardsUpTo(parent, n)
      && (r.Pass? <==> n == |HexLowercase|)
      && (r.Fail? ==> r.error == OsError(EEXIST, parent + [[HexLowercase[n]]]))
    ensures r.Pass? ==> after.dirs == disk.dirs + Prefixes(parent) + ShardDirs(parent)
    ensures r.Pass? <==> MkdirP(disk, parent).Ok? && forall c | c in HexLowercase :: parent + [[c]] !in disk.files
  {
    var top := MkdirP(disk, parent);
    if top.Err? {
      return disk, Fail(top.error);
    }
    after, r := CreateShards(top.value, parent);
    if r.Pass? {
      AllShards(parent);
      forall c | c in HexLowercase ensures parent + [[c]] !in disk.files {
        var j :| 0 <= j < |HexLowercase| && HexLowercase[j] == c;
      }
    }
  }

  /** `map(mkdir_p, hex_dirs)` once `parent` exists: each shard in turn, up to the first
      one that is a file, which raises `EEXIST`. */
  method CreateShards(disk: Disk, parent: Path) returns (after: Disk, r: Outcome<Error>)
    requires Valid(disk) && parent in disk.dirs
    ensures Valid(after) && after.files == disk.files
    ensures var n := FirstFileShard(disk.files, parent, 0);
      && after.dirs == disk.dirs + ShardsUpTo(parent, n)
      && (r.Pass? <==> n == |HexLowercase|)
      && (r.Fail? ==> n < |HexLowercase| && r.error == OsError(EEXIST, parent + [[HexLowercase[n]]]))
  {
    ghost var n := FirstFileShard(disk.files, parent, 0);
    after := disk;
    var i := 0;
    while i < |HexLowercase|
      invariant 0 <= i <= n
      invariant Valid(after) && after.files == disk.files && parent in after.dirs
      invariant after.dirs == disk.dirs + ShardsUpTo(parent, i)
    {
      ShardStep(after, parent, i, disk.dirs);
      AtFirstFileShard(disk.files, parent, i);
      var step := MkdirP(after, parent + [[HexLowercase[i]]]);
      if step.Err? {
        return after, Fail(step.error);
      }
      after := step.value;
      i := i + 1;
    }
    r := Pass;
  }

  /** `mkdir_p` of the shard of `parent` for digit `i`, once `parent` exists: it raises
      `EEXIST` when the shard is a file, and otherwise adds just the shard. */
  lemma ShardStep(disk: Disk, parent: Path, i: nat, base: set<Path>)
    requires Valid(disk) && parent in disk.dirs && i < |HexLowercase|
    requires disk.dirs == base + ShardsUpTo(parent, i)
    ensures var shard := parent + [[HexLowercase[i]]];
      && (shard in disk.files ==> MkdirP(disk, shard) == Err(OsError(EEXIST, shard)))
      && (shard !in disk.files ==> MkdirP(disk, shard).Ok? && MkdirP(disk, shard).value.dirs == base + ShardsUpTo(parent, i + 1))
  {
    var shard := parent + [[HexLowercase[i]]];
    assert Parent(shard) == parent;
    forall k | 1 <= k < |shard| ensures shard[..k] !in disk.files {
      assert shard[..k] == parent[..k];
      AncestorsOfDirAreDirs(disk, parent, k);
    }
    assert shard[..|shard|] == shard;
    PrefixesSnoc(parent, [HexLowercase[i]]);
    PrefixesOfDirAreDirs(disk, parent);
    assert ShardsUpTo(parent, i) + {shard} == ShardsUpTo(parent, i + 1);
  }

  /** Up to the first shard that is a file, a shard is a file exactly when it is that one. */
  lemma AtFirstFileShard(files: map<Path, Content>, parent: Path, i: nat)
    requires i < |HexLowercase| && i <= FirstFileShard(files, parent, 0)
    ensures parent + [[HexLowercase[i]]] in files <==> i == FirstFileShard(files, parent, 0)
  {
  }

  /** All sixteen shards are the shard directories. */
  lemma AllShards(parent: Path)
    ensures ShardsUpTo(parent, |HexLowercase|) == ShardDirs(parent)
  {
    forall q | q in ShardDirs(parent) ensures q in ShardsUpTo(parent, |HexLowercase|) {
      var c :| c in HexLowercase && q == parent + [[c]];
      var j :| 0 <= j < |HexLowercase| && HexLowercase[j] == c;
    }
  }

  /** `Curio.initialize_db`: `mkdir_p(root)` and `create_hex_dirs(root)`. Once it succeeds,
      the directory every record is written into exists, whatever the entity name; when a
      shard path is a file, the shards made before it stay. */
  method InitializeDb(db: Curio, disk: Disk) returns (after: Disk, r: Outcome<Error>)
    requires Valid(disk)
    ensures Valid(after) && after.files == disk.files
    ensures MkdirP(disk, db.root).Err? ==> after == disk && r == Fail(MkdirP(disk, db.root).error)
    ensures MkdirP(disk, db.root).Ok? ==>
      var n := FirstFileShard(disk.files, db.root, 0);
      && after.dirs == disk.dirs + Prefixes(db.root) + ShardsUpTo(db.root, n)
      && (r.Pass? <==> n == |HexLowercase|)
      && (r.Fail? ==> r.error == OsError(EEXIST, db.root + [[HexLowercase[n]]]))
    ensures r.Pass? ==> after.dirs == disk.dirs + Prefixes(db.root) + ShardDirs(db.root)
    ensures r.Pass? ==> forall name :: Parent(GenerateTarget(db, name)) in after.dirs
    ensures r.Pass? <==> MkdirP(disk, db.root).Ok? && forall c | c in HexLowercase :: db.root + [[c]] !in disk.files
  {
    var made := MkdirP(disk, db.root);
    if made.Err? {
      return disk, Fail(made.error);
    }
    after, r := CreateHexDirs(made.value, db.root);
  }
}
