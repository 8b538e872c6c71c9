/**
 * `LockManager`: the set of file handles this store instance holds an advisory lock on.
 * Whether `fcntl.lockf` grants a lock is decided outside the program and comes in as
 * `granted`; each release `fcntl.lockf(fd, LOCK_UN)` is recorded in `released`.
 */
module Locks {
  import opened Wrappers

  /** An open file object: its identity and the file name it was opened on. */
  datatype FileHandle = FileHandle(id: nat, name: string)

  /** `CurioLocked(fd.name)`: the lock is held by someone else. */
  datatype LockError = CurioLocked(name: string)

  class LockManager {
    /** The handles this instance holds a lock on. */
    var locks: set<FileHandle>
    /** Every handle passed to `fcntl.lockf(fd, LOCK_UN)`, oldest first. */
    var released: seq<FileHandle>

    constructor ()
      ensures locks == {} && released == []
    {
      locks := {};
      released := [];
    }

    /** `lock`: a non-blocking exclusive lock; the handle is added only when it is granted. */
    method Lock(fd: FileHandle, granted: bool) returns (r: Outcome<LockError>)
      modifies this
      ensures granted ==> r == Pass && locks == old(locks) + {fd}
      ensures !granted ==> r == Fail(CurioLocked(fd.name)) && locks == old(locks)
      ensures released == old(released)
    {
      if !granted {
        return Fail(CurioLocked(fd.name));
      }
      locks := locks + {fd};
      r := Pass;
    }

    /** `unlock`: a handle that is not held is ignored; a held one is released and
        dropped, and no other handle is touched. */
    method Unlock(fd: FileHandle)
      modifies this
      ensures fd !in old(locks) ==> locks == old(locks) && released == old(released)
      ensures fd in old(locks) ==> locks == old(locks) - {fd} && released == old(released) + [fd]
    {
      if fd !in locks {
        return;
      }
      released := released + [fd];
      locks := locks - {fd};
    }

    /** `unlock_all`: releases every held handle exactly once, in some order, and leaves
        no lock held. */
    method UnlockAll()
      modifies this
      ensures locks == {}
      ensures |released| == |old(released)| + |old(locks)|
      ensures released[..|old(released)|] == old(released)
      ensures multiset(released[|old(released)|..]) == multiset(old(locks))
    {
      var pending := locks;
      ghost var done: seq<FileHandle> := [];
      while pending != {}
        invariant locks == pending && pending <= old(locks)
        invariant released == old(released) + done
        invariant multiset(done) == multiset(old(locks) - pending)
      {
        var fd :| fd in pending;
        Unlock(fd);
        assert old(locks) - (pending - {fd}) == (old(locks) - pending) + {fd};
        done := done + [fd];
        pending := pending - {fd};
      }
      assert released[|old(released)|..] == done;
      assert |done| == |multiset(done)| == |old(locks)|;
      locks := {};
    }
  }
}
