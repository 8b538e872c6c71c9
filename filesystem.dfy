/**
 * The part of the operating system the store touches: directories and files under a
 * path, with the outcomes of `os.makedirs`, `os.remove` and writing a pickle.
 * Paths are lists of components; file contents are what `pickle.load` would make of them.
 */
module FileSystem {
  import opened Wrappers
  import opened Values

  type Path = seq<string>

  function Parent(p: Path): Path
    requires |p| > 0
  {
    p[..|p| - 1]
  }

  /** Every non-empty leading part of `p`: the directories `os.makedirs(p)` ends up with. */
  function Prefixes(p: Path): (r: set<Path>)
    ensures p != [] ==> p in r
  {
    assert p != [] ==> p[..|p|] == p;
    set i | 1 <= i <= |p| :: p[..i]
  }

  /** The prefixes of `p + [c]` are those of `p`, and `p + [c]` itself. */
  lemma PrefixesSnoc(p: Path, c: string)
    ensures Prefixes(p + [c]) == Prefixes(p) + {p + [c]}
  {
    var q := p + [c];
    forall x | x in Prefixes(q) ensures x in Prefixes(p) + {q} {
      var i :| 1 <= i <= |q| && x == q[..i];
      if i <= |p| { assert q[..i] == p[..i]; } else { assert q[..i] == q; }
    }
    forall x | x in Prefixes(p) ensures x in Prefixes(q) {
      var i :| 1 <= i <= |p| && x == p[..i];
      assert q[..i] == p[..i];
    }
  }

  /** `p` lies strictly below the directory `dir`. */
  predicate IsUnder(p: Path, dir: Path) {
    |dir| < |p| && p[..|dir|] == dir
  }

  /** What reading a file with `pickle.load` gives: a record, or an error. */
  datatype Content = Pickled(record: Record) | Unreadable

  datatype Disk = Disk(dirs: set<Path>, files: map<Path, Content>)

  datatype Errno = ENOENT | EEXIST | ENOTDIR | EISDIR

  /** The exceptions the storage code lets through: `OSError`/`IOError` with its errno, the
      error `pickle.load` raises on a file that holds no record, and the `KeyError` or
      `TypeError` that `find` raises on a record without a string `'__name__'`. */
  datatype Error =
    | OsError(errno: Errno, path: Path)
    | UnpicklingError(path: Path)
    | MissingName(path: Path)

  /** `a` and `b` agree on every directory and on every file other than `p`. */
  predicate SameElsewhere(a: Disk, b: Disk, p: Path) {
    && a.dirs == b.dirs
    && a.files - {p} == b.files - {p}
  }

  /** What every real file system satisfies: a root directory, no path both a file and a
      directory, and every file and directory inside an existing directory. */
  predicate Valid(disk: Disk) {
    && [] in disk.dirs
    && disk.dirs !! disk.files.Keys
    && (forall d | d in disk.dirs && d != [] :: Parent(d) in disk.dirs)
    && (forall f | f in disk.files :: f != [] && Parent(f) in disk.dirs)
  }

  /** The length of the shortest prefix of `p`, at least `i` long and shorter than `p`, that
      is a file, or `|p|` when there is none. */
  function FileAncestor(files: map<Path, Content>, p: Path, i: nat): (n: nat)
    requires 1 <= i <= |p|
    ensures i <= n <= |p|
    ensures forall j | i <= j < n :: p[..j] !in files
    ensures n < |p| ==> p[..n] in files
    decreases |p| - i
  {
    if i == |p| || p[..i] in files then i else FileAncestor(files, p, i + 1)
  }

  /** Some proper ancestor of `p` is a file, so resolving `p` fails with `ENOTDIR`. */
  predicate BelowFile(files: map<Path, Content>, p: Path) {
    p != [] && FileAncestor(files, p, 1) < |p|
  }

  /** `os.makedirs(p)`: creates `p` and its missing ancestors, and otherwise creates nothing.
      It fails with `EEXIST` when `p` exists already (the root `[]` always does); when an
      ancestor `p[..n]` is a file, the `mkdir` of `p[..n + 1]` fails with `ENOTDIR`. */
  function MakeDirs(disk: Disk, p: Path): (r: Result<Disk, Error>)
    ensures r.Ok? <==>
      p != [] && p !in disk.dirs && p !in disk.files && forall i | 0 < i < |p| :: p[..i] !in disk.files
    ensures r.Ok? ==> r.value.files == disk.files && r.value.dirs == disk.dirs + Prefixes(p)
    ensures (p == [] || p in disk.dirs || p in disk.files) ==> r == Err(OsError(EEXIST, p))
    ensures r.Err? && p != [] && p !in disk.dirs && p !in disk.files ==>
      var n := FileAncestor(disk.files, p, 1);
      n < |p| && p[..n] in disk.files && r == Err(OsError(ENOTDIR, p[..n + 1]))
    ensures Valid(disk) && r.Ok? ==> Valid(r.value)
  {
    if p == [] || p in disk.dirs || p in disk.files then Err(OsError(EEXIST, p))
    else
      var n := FileAncestor(disk.files, p, 1);
      if n < |p| then
        Err(OsError(ENOTDIR, p[..n + 1]))
      else
        var r := disk.(dirs := disk.dirs + Prefixes(p));
        assert Valid(disk) ==> Valid(r) by {
          if Valid(disk) {
            forall d | d in r.dirs && d != [] ensures Parent(d) in r.dirs {
              if d in Prefixes(p) && |d| > 1 {
                assert Parent(d) == p[..|d| - 1];
              }
            }
          }
        }
        Ok(r)
  }

  /** On a valid disk the ancestor that is a file is unique, so `os.makedirs(p)` fails on
      the path just below it: `ENOTDIR` for `/a/b` when making `/a/b/c` under the file `/a`. */
  lemma {:induction false} MakeDirsBelowFile(disk: Disk, p: Path, n: nat)
    requires Valid(disk) && p !in disk.dirs && p !in disk.files
    requires 0 < n < |p| && p[..n] in disk.files
    ensures MakeDirs(disk, p) == Err(OsError(ENOTDIR, p[..n + 1]))
  {
    var m := FileAncestor(disk.files, p, 1);
    if m < n {
      assert p[..n][..m] == p[..m];
      AncestorOfFileIsDir(disk, p[..n], m);
    }
  }

  /** Every prefix of an existing directory is an existing directory. */
  lemma {:induction false} AncestorsOfDirAreDirs(disk: Disk, d: Path, i: nat)
    requires Valid(disk) && d in disk.dirs && i <= |d|
    ensures d[..i] in disk.dirs
    decreases |d| - i
  {
    if i < |d| {
      AncestorsOfDirAreDirs(disk, d, i + 1);
      assert Parent(d[..i + 1]) == d[..i];
    } else {
      assert d[..i] == d;
    }
  }

  /** On a valid disk every proper ancestor of a file is a directory. */
  lemma {:induction false} AncestorOfFileIsDir(disk: Disk, f: Path, n: nat)
    requires Valid(disk) && f in disk.files && n < |f|
    ensures f[..n] in disk.dirs
    decreases |f| - n
  {
    if n == |f| - 1 {
      assert f[..n] == Parent(f);
    } else {
      AncestorsOfDirAreDirs(disk, f[..|f| - 1], n);
      assert f[..|f| - 1][..n] == f[..n];
    }
  }

  /** `os.remove(p)`: deletes the file `p`. Resolving `p` fails with `ENOTDIR` below a file;
      otherwise `unlink` fails with `EISDIR` on a directory and `ENOENT` on a missing path. */
  function Remove(disk: Disk, p: Path): (r: Result<Disk, Error>)
    ensures r.Ok? <==> p in disk.files
    ensures r.Ok? ==> p !in r.value.files && SameElsewhere(disk, r.value, p)
    ensures Valid(disk) && r.Ok? ==> Valid(r.value)
    ensures r.Err? ==> r.error.OsError? && r.error.path == p
    ensures r.Err? ==> (r.error.errno == ENOTDIR <==> BelowFile(disk.files, p))
    ensures r.Err? && !BelowFile(disk.files, p) ==> (r.error.errno == EISDIR <==> p in disk.dirs)
    ensures r.Err? ==> r.error.errno != EEXIST
  {
    if p in disk.files then Ok(disk.(files := disk.files - {p}))
    else if BelowFile(disk.files, p) then Err(OsError(ENOTDIR, p))
    else if p in disk.dirs then Err(OsError(EISDIR, p))
    else Err(OsError(ENOENT, p))
  }

  /** `pickle.dump(rec, open(p, 'wb'))`: replaces the content of `p` with `rec`. Opening
      fails with `ENOTDIR` below a file, with `EISDIR` on a directory, and with `ENOENT`
      when the parent directory does not exist. */
  function WriteRecord(disk: Disk, p: Path, rec: Record): (r: Result<Disk, Error>)
    ensures r.Ok? <==> p !in disk.dirs && p != [] && Parent(p) in disk.dirs
    ensures r.Ok? ==> p in r.value.files && r.value.files[p] == Pickled(rec) && SameElsewhere(disk, r.value, p)
    ensures Valid(disk) && r.Ok? ==> Valid(r.value)
    ensures r.Err? ==> r.error.OsError? && r.error.path == p
    ensures r.Err? ==> (r.error.errno == ENOTDIR <==> BelowFile(disk.files, p))
    ensures r.Err? && !BelowFile(disk.files, p) ==> (r.error.errno == EISDIR <==> p in disk.dirs)
    ensures r.Err? ==> r.error.errno != EEXIST
  {
    if p !in disk.dirs && p != [] && Parent(p) in disk.dirs then
      Ok(disk.(files := disk.files[p := Pickled(rec)]))
    else if BelowFile(disk.files, p) then Err(OsError(ENOTDIR, p))
    else if p in disk.dirs then Err(OsError(EISDIR, p))
    else Err(OsError(ENOENT, p))
  }
}
