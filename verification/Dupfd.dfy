/**
  Duplication of a file descriptor into the first free slot that the system offers at or
  above a bound (gnulib/fcntl.c, native Windows).

  The system can only open "some" descriptor, so dupfd opens descriptors until one is high
  enough, and then closes the low ones, which it has marked in a set of bits.
 */
module Dupfd {
  import opened Bits
  import opened Powers

  const OPEN_MAX_MAX: nat := 0x10000
  const CHAR_BIT: nat := 8
  const O_BINARY: nat := 0x8000
  const EINVAL := 22
  const EBADF := 9
  const EMFILE := 24
  const EACCES := 13

  /** What a descriptor stands for. */
  datatype Entry = Entry(target: nat, inherit: bool, mode: nat)

  /**
    The process as the system sees it; `handles` counts open handles without a descriptor.
    With `lowest` the system always opens the first free descriptor, and else any free one.
    With `willing` it refuses nothing that it can grant.
   */
  class Process {
    const size: nat
    const lowest: bool
    const willing: bool
    var table: map<nat, Entry>
    var handles: nat
    var errno: int

    ghost predicate Valid()
      reads this
    {
      size <= OPEN_MAX_MAX && forall fd :: fd in table ==> fd < size
    }

    constructor (dtablesize: nat, ordered: bool, obliging: bool)
      requires dtablesize <= OPEN_MAX_MAX
      ensures Valid() && table == map[] && size == dtablesize && lowest == ordered && willing == obliging
    {
      size, lowest, willing, table, handles, errno := dtablesize, ordered, obliging, map[], 0, 0;
    }

    /** _setmode */
    method SetMode(fd: int, mode: nat) returns (old_: int)
      requires Valid()
      modifies `table
      ensures Valid()
      ensures fd !in old(table) ==> old_ == -1 && table == old(table)
      ensures fd in old(table) ==>
                && 0 <= old_ == old(table[fd].mode)
                && table == old(table)[fd := old(table[fd]).(mode := mode)]
    {
      if fd < 0 || fd !in table {
        return -1;
      }
      old_ := table[fd].mode;
      table := table[fd := table[fd].(mode := mode)];
    }

    /** DuplicateHandle: a new handle, or one of several errors. */
    method DuplicateHandle() returns (ok: bool)
      requires Valid()
      modifies `handles, `errno
      ensures Valid()
      ensures willing ==> ok
      ensures ok ==> handles == old(handles) + 1
      ensures !ok ==> handles == old(handles) && errno in {EMFILE, EBADF, EINVAL, EACCES}
    {
      var code: int := *;
      if !willing && code in {EMFILE, EBADF, EINVAL, EACCES} {
        errno := code;
        return false;
      }
      handles := handles + 1;
      ok := true;
    }

    /** _open_osfhandle: a free descriptor takes over the handle, or none does. */
    method OpenOsfHandle(entry: Entry) returns (fd: int)
      requires Valid() && handles > 0
      modifies `table, `handles, `errno
      ensures Valid()
      ensures willing && (exists i: nat :: i < size && i !in old(table)) ==> fd >= 0
      ensures fd < 0 ==> fd == -1 && table == old(table) && handles == old(handles) && errno == EMFILE
      ensures fd >= 0 ==>
                && fd !in old(table) && fd < size && table == old(table)[fd := entry]
                && handles == old(handles) - 1
      ensures fd >= 0 && lowest ==> forall i: nat :: i < fd ==> i in old(table)
    {
      var refused: bool := *;
      if (refused && !willing) || forall i: nat :: i < size ==> i in table {
        errno := EMFILE;
        return -1;
      }
      var free: nat :| free < size && free !in table;
      if lowest {
        free := 0;
        while free in table
          invariant free < size && forall i: nat :: i < free ==> i in table
          decreases size - free
        {
          free := free + 1;
        }
      }
      table := table[free := entry];
      handles := handles - 1;
      fd := free;
    }

    method CloseHandle()
      requires Valid() && handles > 0
      modifies `handles
      ensures Valid() && handles == old(handles) - 1
    {
      handles := handles - 1;
    }

    /** close, which may change errno */
    method Close(fd: nat)
      requires Valid() && fd in table
      modifies `table, `errno
      ensures Valid() && table == old(table) - {fd}
    {
      table := table - {fd};
      errno := *;
    }
  }

  // ------------------------------------------------------------------ the bits

  /** The bytes below `bound` mark exactly the descriptors of a set; the others are not initialized. */
  ghost predicate Marks(bytes: seq<nat>, bound: nat, marked: set<nat>) {
    && bound <= |bytes|
    && (forall fd :: fd in marked ==> fd < bound * CHAR_BIT)
    && (forall i, b: nat :: 0 <= i < bound && b < CHAR_BIT ==> (Bit(bytes[i], b) <==> i * CHAR_BIT + b in marked))
  }

  /** The bytes in use determine the set. */
  lemma MarksAreExact(bytes: seq<nat>, bound: nat, x: set<nat>, y: set<nat>)
    requires Marks(bytes, bound, x) && Marks(bytes, bound, y)
    ensures x == y
  {
    hide Bit;
    forall fd: nat | fd < bound * CHAR_BIT ensures fd in x <==> fd in y {
      var i, b := fd / CHAR_BIT, fd % CHAR_BIT;
      assert Bit(bytes[i], b) <==> i * CHAR_BIT + b in x;
    }
  }

  /** Clears the bytes from the bound up to and including `index`. */
  method Clear(bytes: array<nat>, bound: nat, index: nat, ghost marked: set<nat>)
    requires Marks(bytes[..], bound, marked) && bound <= index < bytes.Length
    modifies bytes
    ensures Marks(bytes[..], index + 1, marked)
  {
    hide Bit;
    for i := bound to index + 1
      invariant Marks(bytes[..], i, marked)
    {
      bytes[i] := 0;
      forall b: nat ensures !Bit(0, b) { BitZero(b); }
    }
  }

  /** Marks one more descriptor. */
  method Mark(bytes: array<nat>, bound: nat, fd: nat, ghost marked: set<nat>)
    requires Marks(bytes[..], bound, marked) && fd / CHAR_BIT < bound
    modifies bytes
    ensures Marks(bytes[..], bound, marked + {fd})
  {
    hide Bit, Pow2, Or;
    var index := fd / CHAR_BIT;
    ghost var before := bytes[..];
    bytes[index] := Or(bytes[index], Pow2(fd % CHAR_BIT));
    forall i, b: nat | 0 <= i < bound && b < CHAR_BIT
      ensures Bit(bytes[..][i], b) <==> i * CHAR_BIT + b in marked + {fd}
    {
      assert Bit(before[i], b) <==> i * CHAR_BIT + b in marked;
      BitOr(before[index], Pow2(fd % CHAR_BIT), b);
      BitPow2(fd % CHAR_BIT, b);
    }
  }

  // ------------------------------------------------------------------- the code

  lemma {:induction false} SmallSet(x: set<nat>, n: nat)
    requires forall i :: i in x ==> i < n
    ensures |x| <= n
  {
    if n > 0 {
      SmallSet(x - {n - 1}, n - 1);
    } else {
      assert forall i :: i !in x;
      assert x == {};
    }
  }

  /** The descriptors that dupfd has opened on the way, and the one it returns if any. */
  function Opened(table: map<nat, Entry>, fds: set<nat>, entry: Entry): map<nat, Entry> {
    table + map fd | fd in fds :: entry
  }

  lemma OpenedNext(table: map<nat, Entry>, fds: set<nat>, entry: Entry, fd: nat)
    ensures Opened(table, fds, entry)[fd := entry] == Opened(table, fds + {fd}, entry)
    ensures Opened(table, {}, entry) == table
    ensures forall i :: i in Opened(table, fds, entry) <==> i in table || i in fds
  {}

  /** Opens descriptors until one is at least newfd; the others are marked. */
  method Fill(p: Process, newfd: nat, entry: Entry, bytes: array<nat>)
      returns (result: int, bound: nat, ghost temporaries: set<nat>, ghost rounds: nat)
    requires p.Valid() && bytes.Length == OPEN_MAX_MAX / CHAR_BIT
    modifies p, bytes
    ensures p.Valid() && p.handles == old(p.handles)
    ensures Marks(bytes[..], bound, temporaries)
    ensures forall fd :: fd in temporaries ==> fd < newfd && fd !in old(p.table)
    ensures rounds == |temporaries| + 1 <= newfd + 1
    ensures result == -1 ==>
              && p.table == Opened(old(p.table), temporaries, entry)
              && p.errno in {EMFILE, EBADF, EINVAL, EACCES}
    ensures result != -1 ==>
              && newfd <= result < p.size && result !in old(p.table)
              && p.table == Opened(old(p.table), temporaries, entry)[result := entry]
    ensures result != -1 && p.lowest ==> forall fd: nat :: newfd <= fd < result ==> fd in old(p.table)
    ensures p.willing && (exists fd: nat :: newfd <= fd < p.size && fd !in old(p.table)) ==> result != -1
  {
    hide Marks, Opened;
    bound, temporaries, rounds := 0, {}, 0;
    NothingMarked(bytes[..]);
    OpenedNext(p.table, {}, entry, 0);
    while true
      invariant p.Valid() && p.handles == old(p.handles)
      invariant Marks(bytes[..], bound, temporaries)
      invariant forall fd :: fd in temporaries ==> fd < newfd && fd !in old(p.table)
      invariant rounds == |temporaries| <= newfd
      invariant p.table == Opened(old(p.table), temporaries, entry)
      decreases newfd - |temporaries|
    {
      rounds := rounds + 1;
      var ok := p.DuplicateHandle();
      if !ok {
        return -1, bound, temporaries, rounds;
      }
      var duplicated := p.OpenOsfHandle(entry);
      OpenedNext(old(p.table), temporaries, entry, 0);
      if duplicated < 0 {
        p.CloseHandle();
        return -1, bound, temporaries, rounds;
      }
      if newfd <= duplicated {
        return duplicated, bound, temporaries, rounds;
      }
      var fd: nat := duplicated;
      bound := Remember(bytes, bound, fd, temporaries);
      OpenedNext(old(p.table), temporaries, entry, fd);
      temporaries := temporaries + {fd};
      SmallSet(temporaries, newfd);
    }
  }

  lemma NothingMarked(bytes: seq<nat>)
    ensures Marks(bytes, 0, {})
  {}

  /** Sets the bit of a descriptor, after clearing the bytes up to it if they are not in use yet. */
  method Remember(bytes: array<nat>, bound: nat, fd: nat, ghost marked: set<nat>) returns (bound': nat)
    requires Marks(bytes[..], bound, marked) && fd < OPEN_MAX_MAX && bytes.Length == OPEN_MAX_MAX / CHAR_BIT
    modifies bytes
    ensures Marks(bytes[..], bound', marked + {fd})
  {
    hide Marks;
    bound' := bound;
    var index := fd / CHAR_BIT;
    if bound <= index {
      if bytes.Length <= index {
        assert false;
      }
      Clear(bytes, bound, index, marked);
      bound' := index + 1;
    }
    Mark(bytes, bound', fd, marked);
  }

  /** Closes the marked descriptors. */
  method CloseMarked(p: Process, bytes: array<nat>, bound: nat, ghost marked: set<nat>)
    requires p.Valid() && Marks(bytes[..], bound, marked) && forall fd :: fd in marked ==> fd in p.table
    modifies p`table, p`errno
    ensures p.Valid() && p.table == old(p.table) - marked && p.errno == old(p.errno)
  {
    hide Bit;
    var savedErrno := p.errno;
    for fd := 0 to bound * CHAR_BIT
      invariant p.Valid()
      invariant p.table == old(p.table) - (set i | i in marked && i < fd)
    {
      assert Bit(bytes[..][fd / CHAR_BIT], fd % CHAR_BIT) <==> fd / CHAR_BIT * CHAR_BIT + fd % CHAR_BIT in marked;
      if Bit(bytes[fd / CHAR_BIT], fd % CHAR_BIT) {
        p.Close(fd);
      }
    }
    assert (set i | i in marked && i < bound * CHAR_BIT) == marked;
    p.errno := savedErrno;
  }

  /**
    dupfd.  A success adds exactly one descriptor, at least newfd, for the object of oldfd;
    a failure changes no descriptor; no handle is lost; the loop runs at most newfd + 1 times.
    The descriptor is the first free one from newfd on if the system opens them in that order,
    and there is one unless the system refuses, or has none left.
   */
  method Dupfd(p: Process, oldfd: int, newfd: int, cloexec: bool) returns (result: int, ghost rounds: nat)
    requires p.Valid()
    modifies p
    ensures p.Valid() && p.handles == old(p.handles)
    ensures newfd < 0 || p.size <= newfd ==> result == -1 && p.errno == EINVAL
    ensures 0 <= newfd < p.size && oldfd !in old(p.table) ==> result == -1 && p.errno == EBADF
    ensures result == -1 ==> p.table == old(p.table) && p.errno in {EMFILE, EBADF, EINVAL, EACCES}
    ensures result != -1 ==>
              && 0 <= newfd <= result < p.size && result !in old(p.table) && oldfd in old(p.table)
              && p.table == old(p.table)[result := old(p.table[oldfd]).(inherit := !cloexec)]
    ensures result != -1 && p.lowest ==> forall fd: nat :: newfd <= fd < result ==> fd in old(p.table)
    ensures p.willing && oldfd in old(p.table) && newfd >= 0 ==>
              (exists fd: nat :: newfd <= fd < p.size && fd !in old(p.table)) ==> result != -1
    ensures newfd >= 0 ==> rounds <= newfd + 1
  {
    rounds := 0;
    var bytes := new nat[OPEN_MAX_MAX / CHAR_BIT];
    if newfd < 0 || p.size <= newfd {
      p.errno := EINVAL;
      return -1, 0;
    }
    var mode := p.SetMode(oldfd, O_BINARY);
    if mode == -1 {
      p.errno := EBADF;
      return -1, 0;
    }
    var _ := p.SetMode(oldfd, mode);
    assert p.table == old(p.table);
    var entry := Entry(p.table[oldfd].target, !cloexec, mode);
    var bound;
    ghost var temporaries;
    result, bound, temporaries, rounds := Fill(p, newfd, entry, bytes);
    CloseMarked(p, bytes, bound, temporaries);
  }
}
