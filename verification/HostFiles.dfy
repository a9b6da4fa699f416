/** The host file system as the descriptor layer sees it: files persist, but open handles may vanish at any moment. */
module HostFiles {
  import opened Bits

  /** Error codes, as signed 32-bit numbers. */
  const ENODEV := -2147418093
  const EBADF := -2147418103
  const EINVAL := -2147418090
  const ENOENT := -2147418110
  const EEXIST := -2147418095

  datatype Flags = Flags(read: bool, write: bool, append: bool, create: bool, exclusive: bool)

  datatype Handle = Handle(path: string, pos: nat, flags: Flags)

  datatype Whence = Set | Cur | End

  // ---- file contents ----

  /** The bytes from pos on, at most n of them. */
  function ReadAt(content: seq<Byte>, pos: nat, n: nat): (r: seq<Byte>)
    ensures |r| == Max(0, Min(n, |content| - pos))
  {
    if pos >= |content| then [] else content[pos..Min(pos + n, |content|)]
  }

  function ZeroBytes(n: nat): (r: seq<Byte>)
    ensures |r| == n
  {
    seq<Byte>(n, _ => 0)
  }

  /** Writing data at pos; a gap after the end is filled with zeros, writing nothing changes nothing. */
  function WriteAt(content: seq<Byte>, pos: nat, data: seq<Byte>): (r: seq<Byte>)
    ensures data != [] ==> |r| == Max(|content|, pos + |data|)
  {
    if data == [] then content
    else
      var padded := content + ZeroBytes(Max(0, pos - |content|));
      padded[..pos] + data + if pos + |data| <= |padded| then padded[pos + |data|..] else []
  }

  /** Every byte after a write: written, or as it was, or a zero in the gap. */
  lemma WriteAtIs(content: seq<Byte>, pos: nat, data: seq<Byte>, k: nat)
    requires data != [] && k < |WriteAt(content, pos, data)|
    ensures WriteAt(content, pos, data)[k] ==
            if pos <= k < pos + |data| then data[k - pos] else if k < |content| then content[k] else 0
  {
  }

  /** A shorter read gives a prefix. */
  lemma ReadFewer(content: seq<Byte>, pos: nat, n: nat, k: nat)
    ensures ReadAt(content, pos, |ReadAt(content, pos, n)|) == ReadAt(content, pos, n)
    ensures k <= |ReadAt(content, pos, n)| ==> ReadAt(content, pos, k) == ReadAt(content, pos, n)[..k]
  {
  }

  /** Two reads in a row are one. */
  lemma ReadTwice(content: seq<Byte>, pos: nat, k: nat, n: nat)
    requires k <= n && pos + k <= |content|
    ensures ReadAt(content, pos, n) == ReadAt(content, pos, k) + ReadAt(content, pos + k, n - k)
  {
  }

  lemma ReadMore(content: seq<Byte>, pos: nat, data: seq<Byte>, chunk: seq<Byte>)
    requires data == ReadAt(content, pos, |data|) && chunk == ReadAt(content, pos + |data|, |chunk|)
    ensures data + chunk == ReadAt(content, pos, |data| + |chunk|)
  {
    if data != [] { ReadTwice(content, pos, |data|, |data| + |chunk|); }
  }

  /** Nothing more to read: everything asked for is there, or the file has ended. */
  lemma ReadDone(content: seq<Byte>, pos: nat, data: seq<Byte>, size: nat, n: nat)
    requires data == ReadAt(content, pos, |data|) && |data| <= size
    requires ReadAt(content, pos + |data|, n) == [] && (n == 0 ==> |data| == size)
    ensures data == ReadAt(content, pos, size)
  {
  }

  lemma WriteAtEnd(content: seq<Byte>, data: seq<Byte>)
    ensures WriteAt(content, |content|, data) == content + data
  {
    assert content + ZeroBytes(0) == content;
  }

  /** Two writes in a row are one. */
  lemma WriteTwice(content: seq<Byte>, pos: nat, a: seq<Byte>, b: seq<Byte>)
    requires a != []
    ensures WriteAt(WriteAt(content, pos, a), pos + |a|, b) == WriteAt(content, pos, a + b)
  {
    if b == [] {
      assert a + b == a;
    } else {
      var x, y := WriteAt(WriteAt(content, pos, a), pos + |a|, b), WriteAt(content, pos, a + b);
      assert |x| == |y|;
      assert forall k :: 0 <= k < |x| ==> x[k] == y[k];
    }
  }

  /** The files after data has been written to one of them. */
  function FileWritten(files: map<string, seq<Byte>>, path: string, pos: nat, data: seq<Byte>): (r: map<string, seq<Byte>>)
    requires path in files
    ensures r.Keys == files.Keys
  {
    files[path := WriteAt(files[path], pos, data)]
  }

  lemma WriteMore(files: map<string, seq<Byte>>, path: string, pos: nat, a: seq<Byte>, b: seq<Byte>)
    requires path in files
    ensures FileWritten(FileWritten(files, path, pos, a), path, pos + |a|, b) == FileWritten(files, path, pos, a + b)
  {
    if a == [] {
      assert a + b == b;
    } else {
      WriteTwice(files[path], pos, a, b);
    }
  }

  lemma WriteNothing(files: map<string, seq<Byte>>, path: string, pos: nat)
    requires path in files
    ensures FileWritten(files, path, pos, []) == files
  {
  }

  /** The files once this one exists. */
  function Created(files: map<string, seq<Byte>>, path: string): (r: map<string, seq<Byte>>)
    ensures path in r && forall p :: p in files ==> p in r && r[p] == files[p]
    ensures path in files ==> r == files
  {
    if path in files then files else files[path := []]
  }

  /** Where a seek leads, before it is checked for being negative. */
  function SeekTarget(size: nat, pos: nat, offset: int, whence: Whence): int
  {
    match whence
    case Set => offset
    case Cur => pos + offset
    case End => size + offset
  }

  /** The same place reached from the start, from where one is, and from the end. */
  lemma SeekAgrees(size: nat, pos: nat, target: int)
    ensures SeekTarget(size, pos, target, Set) == target
    ensures SeekTarget(size, pos, target - pos, Cur) == target && SeekTarget(size, pos, target - size, End) == target
  {
  }

  // ---- the host ----

  class Host {
    var files: map<string, seq<Byte>>
    var handles: map<int, Handle>
    /** Handle numbers are never used again. */
    var next: int
    /** A gentle host lets the newest handle live until it has been used `charges` times, and opens what exists. */
    const gentle: bool
    var newest: int
    var charges: nat

    constructor (gentle: bool)
      ensures Valid() && this.gentle == gentle && files == map[] && handles == map[]
    {
      this.gentle := gentle;
      files, handles, next, newest, charges := map[], map[], 1, 0, 0;
    }

    ghost predicate Valid()
      reads this
    {
      && next > 0
      && (forall fd :: fd in handles ==> 0 < fd < next && handles[fd].path in files)
    }

    /** Nothing but handles can disappear. */
    twostate predicate Disturbed()
      reads this
    {
      && files == old(files) && next == old(next) && newest == old(newest) && charges == old(charges)
      && (forall fd :: fd in handles ==> fd in old(handles) && handles[fd] == old(handles[fd]))
      && (gentle && charges > 0 && newest in old(handles) ==> newest in handles)
    }

    /** The moment between two calls: any handles may be gone. */
    method Disturb()
      requires Valid()
      modifies this`handles
      ensures Valid() && Disturbed()
    {
      if * {
        handles := if gentle && charges > 0 && newest in handles then map[newest := handles[newest]] else map[];
      }
    }

    /** What a dead handle answers: gone if it was one, bad if it never was. */
    function Dead(fd: int): (r: int)
      reads this`next
      ensures r < 0
    {
      if 0 < fd < next then ENODEV else EBADF
    }

    /** No other handle appears or moves; this one is used once. */
    twostate predicate OnlyUses(fd: int)
      reads this
    {
      && next == old(next) && newest == old(newest)
      && (forall o :: o in handles && o != fd ==> o in old(handles) && handles[o] == old(handles[o]))
      && (fd in handles ==> fd in old(handles))
      && charges == (if fd == newest && old(charges) > 0 then old(charges) - 1 else old(charges))
      && (gentle && old(charges) > 0 && newest in old(handles) ==> newest in handles)
    }

    method Use(fd: int)
      modifies this`charges
      ensures charges == if fd == newest && old(charges) > 0 then old(charges) - 1 else old(charges)
    {
      if fd == newest && charges > 0 { charges := charges - 1; }
    }

    /** Whether the file is there, or may be made, to be opened this way. */
    predicate CanOpen(path: string, flags: Flags)
      reads this`files
    {
      if path in files then !(flags.create && flags.exclusive) else flags.create
    }

    /** Opening may fail for no reason only on an ungentle host. */
    method Open(path: string, flags: Flags) returns (fd: int)
      requires Valid()
      modifies this
      ensures Valid()
      ensures fd > 0 ==> files == Created(old(files), path)
      ensures forall o :: o in handles && o != fd ==> o in old(handles) && handles[o] == old(handles[o])
      ensures fd > 0 ==> fd == old(next) && next == fd + 1 && newest == fd && charges == 2
                         && fd in handles && handles[fd] == Handle(path, 0, flags)
      ensures fd <= 0 ==> fd < 0 && fd != ENODEV && next == old(next) && files == old(files) && fd !in handles
      ensures !old(CanOpen(path, flags)) ==> fd == if path in old(files) then EEXIST else ENOENT
      ensures gentle && old(CanOpen(path, flags)) ==> fd > 0
    {
      Disturb();
      if path !in files && !flags.create { return ENOENT; }
      if path in files && flags.create && flags.exclusive { return EEXIST; }
      if !gentle {
        if * { return EBADF; }
      }
      files := Created(files, path);
      fd := next;
      next := next + 1;
      handles := handles[fd := Handle(path, 0, flags)];
      newest, charges := fd, 2;
    }

    /** Reads some of the bytes that are there, at least one unless there is none. */
    method Read(fd: int, n: nat) returns (res: int, data: seq<Byte>)
      requires Valid()
      modifies this`handles, this`charges
      ensures Valid() && files == old(files) && OnlyUses(fd)
      ensures fd !in handles ==> res == Dead(fd) && data == []
      ensures fd in handles && !old(handles[fd]).flags.read ==> res == EBADF && data == [] && handles[fd] == old(handles[fd])
      ensures fd in handles && old(handles[fd]).flags.read ==>
                var h := old(handles[fd]);
                && res == |data| <= n && data == ReadAt(files[h.path], h.pos, |data|)
                && (ReadAt(files[h.path], h.pos, n) != [] ==> data != [])
                && handles[fd] == h.(pos := h.pos + |data|)
    {
      hide ReadAt;
      Disturb();
      Use(fd);
      if fd !in handles { return Dead(fd), []; }
      var h := handles[fd];
      if !h.flags.read { return EBADF, []; }
      data := ReadAt(files[h.path], h.pos, n);
      ReadFewer(files[h.path], h.pos, n, 1);
      if |data| > 1 {
        if * { data := data[..1]; }
      }
      res := |data|;
      handles := handles[fd := h.(pos := h.pos + |data|)];
    }

    /** Writes some of the bytes, at least one unless there is none. */
    method Write(fd: int, data: seq<Byte>) returns (res: int)
      requires Valid()
      modifies this`files, this`handles, this`charges
      ensures Valid() && OnlyUses(fd)
      ensures fd !in handles ==> res == Dead(fd) && files == old(files)
      ensures fd in handles && !old(handles[fd]).flags.write ==>
                res == EBADF && files == old(files) && handles[fd] == old(handles[fd])
      ensures fd in handles && old(handles[fd]).flags.write ==>
                var h := old(handles[fd]);
                var pos := if h.flags.append then |old(files)[h.path]| else h.pos;
                && 0 <= res <= |data| && (data != [] ==> res > 0)
                && files == old(files)[h.path := WriteAt(old(files)[h.path], pos, data[..res])]
                && handles[fd] == h.(pos := pos + res)
    {
      Disturb();
      Use(fd);
      if fd !in handles { return Dead(fd); }
      var h := handles[fd];
      if !h.flags.write { return EBADF; }
      var pos := if h.flags.append then |files[h.path]| else h.pos;
      res := |data|;
      if res > 1 {
        if * { res := 1; }
      }
      files := files[h.path := WriteAt(files[h.path], pos, data[..res])];
      handles := handles[fd := h.(pos := pos + res)];
    }

    method Lseek(fd: int, offset: int, whence: Whence) returns (res: int)
      requires Valid()
      modifies this`handles, this`charges
      ensures Valid() && files == old(files) && OnlyUses(fd)
      ensures fd !in handles ==> res == Dead(fd)
      ensures fd in handles ==>
                var h := old(handles[fd]);
                var target := SeekTarget(|files[h.path]|, h.pos, offset, whence);
                if target < 0 then res == EINVAL && handles[fd] == h
                else res == target && handles[fd] == h.(pos := target)
    {
      Disturb();
      Use(fd);
      if fd !in handles { return Dead(fd); }
      var h := handles[fd];
      var target := SeekTarget(|files[h.path]|, h.pos, offset, whence);
      if target < 0 { return EINVAL; }
      res := target;
      handles := handles[fd := h.(pos := target)];
    }

    method Close(fd: int) returns (res: int)
      requires Valid()
      modifies this`handles, this`charges
      ensures Valid() && files == old(files) && next == old(next) && newest == old(newest)
      ensures fd !in handles
      ensures forall o :: o in handles ==> o in old(handles) && handles[o] == old(handles[o])
      ensures res == 0 || res == Dead(fd)
      ensures res == 0 ==> fd in old(handles)
    {
      Disturb();
      Use(fd);
      if fd !in handles { return Dead(fd); }
      handles := handles - {fd};
      res := 0;
    }
  }
}
