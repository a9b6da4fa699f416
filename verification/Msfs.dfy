/** The memory-stick descriptor layer: a table of open files that survives the host losing its handles. */
module Msfs {
  import opened Bits
  import opened HostFiles

  const MAX_DESCRIPTORS := 32
  const MAX_IO_SIZE := 52428800

  /** A slot of the table; one with handle 0 is free. */
  datatype Descriptor =
    Descriptor(path: string, fd: int, offset: nat, firstWriteOffset: nat, firstWrite: bool, flags: Flags)

  const NO_FLAGS := Flags(false, false, false, false, false)
  const FREE := Descriptor("", 0, 0, 0, false, NO_FLAGS)

  /** The low 32 bits of an offset, as the source's casts to int see them. */
  function ToInt(x: int): int
  {
    var low := x % 0x1_0000_0000;
    if low < 0x8000_0000 then low else low - 0x1_0000_0000
  }

  /** Where a path of the emulated memory stick lies on the host. */
  function HostPath(location: string, path: string): string
  {
    var p := if path != "" && path[0] == '/' then path[1..] else path;
    if |p| >= 14 && p[..14] == "__ADRENALINE__" then "ux0:app/PSPEMUCFW/" + p[14..] else location + "/" + p
  }

  /** Of names on the same side of the prefix, only equal ones share a place on the host. */
  lemma PathsApart(location: string, a: string, b: string)
    ensures var na := if a != "" && a[0] == '/' then a[1..] else a;
            var nb := if b != "" && b[0] == '/' then b[1..] else b;
            ("__ADRENALINE__" <= na <==> "__ADRENALINE__" <= nb) ==>
              (HostPath(location, a) == HostPath(location, b) <==> na == nb)
  {
    var na := if a != "" && a[0] == '/' then a[1..] else a;
    var nb := if b != "" && b[0] == '/' then b[1..] else b;
    PathEnds(location, a);
    PathEnds(location, b);
    if "__ADRENALINE__" <= na && "__ADRENALINE__" <= nb && HostPath(location, a) == HostPath(location, b) {
      assert na == "__ADRENALINE__" + na[14..] && nb == "__ADRENALINE__" + nb[14..];
    }
  }

  /** A path is the location, a slash and the whole name; names with the prefix lie in the application's own folder,
    and the prefix is replaced. */
  lemma PathEnds(location: string, a: string)
    ensures var na := if a != "" && a[0] == '/' then a[1..] else a;
            var path := HostPath(location, a);
            if "__ADRENALINE__" <= na
            then "ux0:app/PSPEMUCFW/" <= path && |path| == 18 + |na| - 14 && path[18..] == na[14..]
            else location + "/" <= path && |path| == |location| + 1 + |na| && path[|location| + 1..] == na
  {
    var na := if a != "" && a[0] == '/' then a[1..] else a;
    assert "__ADRENALINE__" <= na <==> |na| >= 14 && na[..14] == "__ADRENALINE__";
  }

  /** Only the file at path may have changed. */
  ghost predicate SameBut(before: map<string, seq<Byte>>, after: map<string, seq<Byte>>, path: string)
  {
    before.Keys == after.Keys && forall p :: p in before && p != path ==> after[p] == before[p]
  }

  class Table {
    const host: Host
    const list: array<Descriptor>
    const location: string

    constructor (host: Host, location: string)
      requires host.Valid()
      ensures Valid() && this.host == host && this.location == location && fresh(list)
      ensures forall i :: 0 <= i < MAX_DESCRIPTORS ==> list[i] == FREE
    {
      this.host := host;
      this.location := location;
      list := new Descriptor[MAX_DESCRIPTORS](_ => FREE);
    }

    function PathOf(d: Descriptor): string
    {
      HostPath(location, d.path)
    }

    /** A slot agrees with the host on everything but the position. */
    ghost predicate Linked(d: Descriptor)
      reads host
    {
      && d.fd < host.next
      && (d.fd > 0 ==> PathOf(d) in host.files)
      && (d.fd in host.handles ==> host.handles[d.fd].path == PathOf(d) && host.handles[d.fd].flags == d.flags)
    }

    ghost predicate Valid()
      reads this, host, list
    {
      && host.Valid() && list.Length == MAX_DESCRIPTORS
      && (forall i :: 0 <= i < MAX_DESCRIPTORS ==> Linked(list[i]))
      && (forall i, j :: 0 <= i < j < MAX_DESCRIPTORS && list[i].fd > 0 ==> list[i].fd != list[j].fd)
    }

    /** If the handle of slot i is live, it stands at p. */
    ghost predicate At(i: nat, p: nat)
      requires i < list.Length
      reads host, list
    {
      list[i].fd in host.handles ==> host.handles[list[i].fd].pos == p
    }

    /** The recorded offset is the live position. */
    ghost predicate Synced(i: nat)
      requires i < list.Length
      reads host, list
    {
      At(i, list[i].offset)
    }

    /** Opened only if it did not exist, the file cannot be opened again the same way. */
    predicate Exclusive(d: Descriptor)
    {
      d.flags.create && d.flags.exclusive
    }

    /** Slot i has an open file that a gentle host lets the layer reopen. */
    ghost predicate Sound(i: nat)
      requires i < list.Length
      reads host, list
    {
      host.gentle && list[i].fd > 0 && !Exclusive(list[i])
    }

    /** The handle of slot i is gone, and reopening must fail. */
    ghost predicate Stranded(i: nat)
      requires i < list.Length
      reads host, list
    {
      list[i].fd > 0 && list[i].fd !in host.handles && Exclusive(list[i])
    }

    /** Slot i is left with the error of a failed reopening in place of its handle. */
    ghost predicate Dead(i: nat)
      requires i < list.Length
      reads list
    {
      list[i].fd < 0
    }

    /** Every other slot is as it was, and none of their handles has moved. */
    twostate predicate OthersKept(i: int)
      reads host, list
    {
      && (forall j :: 0 <= j < list.Length && j != i ==> list[j] == old(list[j]))
      && (forall j :: 0 <= j < list.Length && j != i && list[j].fd in host.handles ==>
            list[j].fd in old(host.handles) && host.handles[list[j].fd] == old(host.handles[list[j].fd]))
    }

    // ---- reopening ----

    /** A new handle for slot i, moved to the recorded offset. */
    method ReopenFile(i: nat) returns (fd: int)
      requires host.Valid() && i < list.Length
      modifies host, list
      ensures host.Valid() && forall p :: p in old(host.files) ==> p in host.files && host.files[p] == old(host.files[p])
      ensures PathOf(list[i]) in old(host.files) ==> host.files == old(host.files)
      ensures list[i] == old(list[i]).(fd := fd) && fd != 0
      ensures forall j :: 0 <= j < list.Length && j != i ==> list[j] == old(list[j])
      ensures forall o :: o in host.handles && o != fd ==> o in old(host.handles) && host.handles[o] == old(host.handles[o])
      ensures if fd > 0 then fd == old(host.next) && host.next == fd + 1 && PathOf(list[i]) in host.files
              else host.next == old(host.next) && fd !in host.handles
      ensures fd in host.handles ==> host.handles[fd] == Handle(PathOf(list[i]), list[i].offset, list[i].flags)
      ensures host.gentle && PathOf(list[i]) in old(host.files) && !Exclusive(list[i]) ==>
                fd > 0 && fd in host.handles && host.newest == fd && host.charges == 1
      ensures PathOf(list[i]) in old(host.files) && Exclusive(list[i]) ==> fd == EEXIST
      ensures host.gentle && PathOf(list[i]) in old(host.files) ==> (fd > 0 <==> !Exclusive(list[i]))
    {
      var d := list[i];
      fd := host.Open(PathOf(d), d.flags);
      list[i] := d.(fd := fd);
      var res := host.Lseek(fd, d.offset, Set);
    }

    /** Reopening a slot whose handle is gone, or was answered as if it were. */
    method Revive(i: nat) returns (fd: int)
      requires Valid() && i < MAX_DESCRIPTORS && list[i].fd > 0
      modifies host, list
      ensures Valid() && host.files == old(host.files) && OthersKept(i)
      ensures list[i] == old(list[i]).(fd := fd) && fd != 0
      ensures Synced(i) && (fd < 0 ==> fd !in host.handles)
      ensures old(Sound(i)) ==> fd > 0 && JustOpened(i)
      ensures Exclusive(list[i]) ==> fd == EEXIST
    {
      fd := ReopenFile(i);
    }

    // ---- reading ----

    /** The bytes a read of slot i yields: some of what is there, at least one unless there is none. */
    ghost predicate Chunk(i: nat, n: nat, chunk: seq<Byte>)
      requires i < list.Length
      reads host, list
    {
      && PathOf(list[i]) in host.files
      && var content := host.files[PathOf(list[i])];
      && |chunk| <= n && chunk == ReadAt(content, list[i].offset, |chunk|)
      && (ReadAt(content, list[i].offset, n) != [] ==> chunk != [])
    }

    /** The newest handle, just reopened for slot i. */
    ghost predicate JustOpened(i: nat)
      requires i < list.Length
      reads host, list
    {
      host.gentle && host.charges > 0 && host.newest == list[i].fd && list[i].fd in host.handles
    }

    method HostRead(i: nat, n: nat) returns (res: int, chunk: seq<Byte>)
      requires Valid() && i < MAX_DESCRIPTORS && list[i].fd != 0
      modifies host
      ensures Valid() && host.files == old(host.files) && OthersKept(i)
      ensures if res < 0 then chunk == [] else res == |chunk| <= n
      ensures old(Synced(i)) ==> At(i, list[i].offset + |chunk|) && (res >= 0 ==> Chunk(i, n, chunk))
      ensures list[i].flags.read && list[i].fd > 0 && res < 0 ==> res == ENODEV
      ensures res == ENODEV ==> list[i].fd > 0
      ensures old(JustOpened(i)) && list[i].flags.read ==> res >= 0
      ensures !list[i].flags.read ==> res < 0
      ensures (old(Stranded(i)) ==> res == ENODEV) && (Dead(i) ==> res == EBADF)
    {
      res, chunk := host.Read(list[i].fd, n);
    }

    /** One host read for slot i, repeated once on a new handle if the old one is gone. */
    method ReadChunk(i: nat, n: nat) returns (res: int, chunk: seq<Byte>)
      requires Valid() && i < MAX_DESCRIPTORS && list.Length == MAX_DESCRIPTORS && list[i].fd != 0
      modifies host, list
      ensures Valid() && host.files == old(host.files) && OthersKept(i)
      ensures list[i] == old(list[i]).(fd := list[i].fd) && list[i].fd != 0
      ensures if res < 0 then chunk == [] else res == |chunk| <= n
      ensures old(Synced(i)) ==> At(i, list[i].offset + |chunk|) && (res >= 0 ==> Chunk(i, n, chunk))
      ensures old(Sound(i)) ==> Sound(i) && (list[i].flags.read ==> res >= 0)
      ensures !list[i].flags.read ==> res < 0
      ensures old(Stranded(i)) ==> res == ENODEV && list[i].fd == EEXIST
      ensures old(Dead(i)) ==> res == EBADF && list[i].fd == old(list[i]).fd
    {
      hide Valid;
      hide At;
      hide Chunk;
      res, chunk := HostRead(i, n);
      if res == ENODEV {
        var fd := Revive(i);
        if fd >= 0 { res, chunk := HostRead(i, n); }
      }
    }

    /** Records n more bytes in the offset of slot i. */
    method Advance(i: nat, n: nat)
      requires Valid() && i < MAX_DESCRIPTORS && list.Length == MAX_DESCRIPTORS
      modifies list
      ensures Valid() && OthersKept(i)
      ensures list[i] == old(list[i]).(offset := old(list[i]).offset + n)
      ensures forall p: nat :: At(i, p) <==> old(At(i, p))
      ensures old(Sound(i)) ==> Sound(i)
    {
      list[i] := list[i].(offset := list[i].offset + n);
    }

    /** What a read of slot i has transferred so far. */
    ghost predicate ReadSoFar(i: nat, d: Descriptor, data: seq<Byte>)
      requires i < list.Length
      reads host, list
    {
      && list[i] == d.(fd := list[i].fd, offset := d.offset + |data|) && list[i].fd != 0
      && PathOf(d) in host.files && data == ReadAt(host.files[PathOf(d)], d.offset, |data|)
      && Synced(i)
    }

    /** One turn of the read loop. */
    method ReadTurn(i: nat, size: nat, data: seq<Byte>, ghost d: Descriptor) returns (res: int, next: seq<Byte>)
      requires Valid() && i < MAX_DESCRIPTORS && list.Length == MAX_DESCRIPTORS && list[i].fd != 0 && |data| <= size
      requires list[i] == d.(fd := list[i].fd, offset := d.offset + |data|)
      modifies host, list
      ensures Valid() && host.files == old(host.files) && OthersKept(i)
      ensures if res <= 0 then next == data else |next| == |data| + res <= size
      ensures list[i] == d.(fd := list[i].fd, offset := d.offset + |next|) && list[i].fd != 0
      ensures old(ReadSoFar(i, d, data)) ==>
                && ReadSoFar(i, d, next)
                && (res == 0 ==> next == ReadAt(host.files[PathOf(d)], d.offset, size))
      ensures old(Sound(i)) ==> Sound(i) && (d.flags.read ==> res >= 0)
      ensures !d.flags.read ==> res < 0
      ensures old(Stranded(i)) ==> res == ENODEV && list[i].fd == EEXIST
      ensures old(Dead(i)) ==> res == EBADF && list[i].fd == old(list[i]).fd
    {
      hide Valid;
      hide At;
      hide ReadAt;
      var remain := size - |data|;
      var bufSize := if remain < MAX_IO_SIZE then remain else MAX_IO_SIZE;
      ghost var good := ReadSoFar(i, d, data);
      var chunk;
      res, chunk := ReadChunk(i, bufSize);
      next := data;
      if res < 0 { return; }
      ghost var content := if PathOf(d) in host.files then host.files[PathOf(d)] else [];
      if good { ReadMore(content, d.offset, data, chunk); }
      if res == 0 {
        if good { ReadDone(content, d.offset, data, size, bufSize); }
        return;
      }
      next := data + chunk;
      Advance(i, res);
    }

    /** Reads up to size bytes in chunks, until they are there or the file ends.
      A result that is not an error is exactly what a host that loses nothing would have given. */
    method Read(i: int, size: nat) returns (res: int, data: seq<Byte>)
      requires Valid() && list.Length == MAX_DESCRIPTORS && size < 0x8000_0000
      modifies host, list
      ensures Valid() && host.files == old(host.files)
      ensures !(0 <= i < MAX_DESCRIPTORS) ==>
                res == EINVAL && data == [] && list[..] == old(list[..]) && host.handles == old(host.handles)
      ensures 0 <= i < MAX_DESCRIPTORS ==> OthersKept(i)
      ensures 0 <= i < MAX_DESCRIPTORS && old(list[i]).fd == 0 ==> res == EBADF && data == [] && list[i] == old(list[i])
      ensures 0 <= i < MAX_DESCRIPTORS && old(list[i]).fd != 0 ==>
                list[i] == old(list[i]).(fd := list[i].fd, offset := old(list[i]).offset + |data|)
      ensures 0 <= i < MAX_DESCRIPTORS && old(list[i]).fd > 0 && old(Synced(i)) ==>
                && ReadSoFar(i, old(list[i]), data)
                && (res >= 0 ==> res == |data| && data == ReadAt(host.files[PathOf(list[i])], old(list[i]).offset, size))
      ensures 0 <= i < MAX_DESCRIPTORS && old(Sound(i)) ==> Sound(i) && (old(list[i]).flags.read ==> res >= 0)
      ensures 0 <= i < MAX_DESCRIPTORS && !old(list[i]).flags.read ==> res < 0 && data == []
      ensures 0 <= i < MAX_DESCRIPTORS && old(Stranded(i)) ==> res == ENODEV && list[i].fd == EEXIST
      ensures 0 <= i < MAX_DESCRIPTORS && old(Dead(i)) ==> res == EBADF && list[i].fd == old(list[i]).fd
    {
      hide Valid;
      hide ReadAt;
      if !(0 <= i < MAX_DESCRIPTORS) { return EINVAL, []; }
      data := [];
      ghost var d := list[i];
      if list[i].fd == 0 {
        res := ReadFree(i, size);
        return;
      }
      StartReading(i);
      while true
        invariant Valid() && host.files == old(host.files) && OthersKept(i) && |data| <= size
        invariant list[i] == d.(fd := list[i].fd, offset := d.offset + |data|) && list[i].fd != 0
        invariant d.fd > 0 && old(Synced(i)) ==> ReadSoFar(i, d, data)
        invariant old(Sound(i)) ==> Sound(i)
        invariant (old(Stranded(i)) ==> Stranded(i)) && (old(Dead(i)) ==> list[i].fd == old(list[i]).fd)
        invariant !d.flags.read ==> data == []
        decreases size - |data|
      {
        res, data := ReadTurn(i, size, data, d);
        if res < 0 { return; }
        if res == 0 { break; }
        if |data| >= size { break; }
      }
      res := |data|;
    }

    /** The host has no handle 0. */
    method ReadFree(i: nat, size: nat) returns (res: int)
      requires Valid() && i < MAX_DESCRIPTORS && list[i].fd == 0
      modifies host
      ensures Valid() && host.files == old(host.files) && OthersKept(i) && res == EBADF
    {
      var data;
      res, data := host.Read(list[i].fd, if size < MAX_IO_SIZE then size else MAX_IO_SIZE);
    }

    lemma StartReading(i: nat)
      requires Valid() && i < MAX_DESCRIPTORS && list[i].fd != 0
      ensures list[i].fd > 0 && Synced(i) ==> ReadSoFar(i, list[i], [])
    {
    }

    // ---- writing ----

    /** A file open for appending is only written where its offset says when that is its end. */
    ghost predicate AtEnd(d: Descriptor, files: map<string, seq<Byte>>)
    {
      d.flags.append ==> PathOf(d) in files && d.offset == |files[PathOf(d)]|
    }

    /** The live handle stands at the end of the file, to which this has been added. */
    ghost predicate Appended(i: nat, files: map<string, seq<Byte>>, added: seq<Byte>)
      requires i < list.Length
      reads host, list
    {
      && PathOf(list[i]) in files && PathOf(list[i]) in host.files
      && host.files[PathOf(list[i])] == files[PathOf(list[i])] + added
      && At(i, |host.files[PathOf(list[i])]|)
    }

    method HostWrite(i: nat, data: seq<Byte>) returns (res: int)
      requires Valid() && i < MAX_DESCRIPTORS && list[i].fd != 0
      modifies host
      ensures Valid() && OthersKept(i)
      ensures res <= |data| && (res >= 0 && data != [] ==> res > 0) && (res <= 0 ==> host.files == old(host.files))
      ensures SameBut(old(host.files), host.files, PathOf(list[i]))
      ensures old(Synced(i)) && AtEnd(list[i], old(host.files)) ==>
                && At(i, list[i].offset + Max(0, res))
                && (res >= 0 ==> PathOf(list[i]) in old(host.files)
                                 && host.files == FileWritten(old(host.files), PathOf(list[i]), list[i].offset, data[..res])
                                 && AtEnd(list[i].(offset := list[i].offset + res), host.files))
      ensures list[i].flags.append && res > 0 ==> Appended(i, old(host.files), data[..res])
      ensures list[i].flags.write && list[i].fd > 0 && res < 0 ==> res == ENODEV
      ensures res == ENODEV ==> list[i].fd > 0
      ensures old(JustOpened(i)) && list[i].flags.write ==> res >= 0
      ensures !list[i].flags.write ==> res < 0
      ensures (old(Stranded(i)) ==> res == ENODEV) && (Dead(i) ==> res == EBADF)
    {
      ghost var path, before := PathOf(list[i]), host.files;
      res := host.Write(list[i].fd, data);
      if path in before && 0 < res <= |data| { WriteAtEnd(before[path], data[..res]); }
    }

    /** One host write for slot i, repeated once on a new handle if the old one is gone. */
    method WriteChunk(i: nat, data: seq<Byte>) returns (res: int)
      requires Valid() && i < MAX_DESCRIPTORS && list.Length == MAX_DESCRIPTORS && list[i].fd != 0
      modifies host, list
      ensures Valid() && OthersKept(i)
      ensures list[i] == old(list[i]).(fd := list[i].fd) && list[i].fd != 0
      ensures res <= |data| && (res >= 0 && data != [] ==> res > 0) && (res <= 0 ==> host.files == old(host.files))
      ensures SameBut(old(host.files), host.files, PathOf(list[i]))
      ensures old(Synced(i)) && AtEnd(list[i], old(host.files)) ==>
                && At(i, list[i].offset + Max(0, res))
                && (res >= 0 ==> PathOf(list[i]) in old(host.files)
                                 && host.files == FileWritten(old(host.files), PathOf(list[i]), list[i].offset, data[..res])
                                 && AtEnd(list[i].(offset := list[i].offset + res), host.files))
      ensures list[i].flags.append && res > 0 ==> Appended(i, old(host.files), data[..res])
      ensures old(Sound(i)) ==> Sound(i) && (list[i].flags.write ==> res >= 0)
      ensures !list[i].flags.write ==> res < 0
      ensures old(Stranded(i)) ==> res == ENODEV && list[i].fd == EEXIST
      ensures old(Dead(i)) ==> res == EBADF && list[i].fd == old(list[i]).fd
    {
      hide Valid;
      hide At;
      hide FileWritten;
      res := HostWrite(i, data);
      if res == ENODEV {
        var fd := Revive(i);
        if fd >= 0 { res := HostWrite(i, data); }
      }
    }

    /** A chunk is written and recorded in the offset. */
    method WriteStep(i: nat, data: seq<Byte>) returns (res: int)
      requires Valid() && i < MAX_DESCRIPTORS && list.Length == MAX_DESCRIPTORS && list[i].fd != 0
      modifies host, list
      ensures Valid() && OthersKept(i)
      ensures list[i] == old(list[i]).(fd := list[i].fd, offset := old(list[i]).offset + Max(0, res)) && list[i].fd != 0
      ensures res <= |data| && (res >= 0 && data != [] ==> res > 0) && (res <= 0 ==> host.files == old(host.files))
      ensures SameBut(old(host.files), host.files, PathOf(list[i]))
      ensures old(Synced(i) && AtEnd(list[i], host.files)) ==>
                && Synced(i) && AtEnd(list[i], host.files)
                && (res >= 0 ==> PathOf(list[i]) in old(host.files)
                                 && host.files == FileWritten(old(host.files), PathOf(list[i]), old(list[i]).offset, data[..res]))
      ensures list[i].flags.append && res > 0 ==> Appended(i, old(host.files), data[..res])
      ensures old(Sound(i)) ==> Sound(i) && (list[i].flags.write ==> res >= 0)
      ensures !list[i].flags.write ==> res < 0
      ensures old(Stranded(i)) ==> res == ENODEV && list[i].fd == EEXIST
      ensures old(Dead(i)) ==> res == EBADF && list[i].fd == old(list[i]).fd
    {
      hide Valid;
      hide At;
      hide FileWritten;
      res := WriteChunk(i, data);
      if res > 0 { Advance(i, res); }
    }

    /** What a write to slot i has transferred so far. */
    ghost predicate WrittenSoFar(i: nat, d: Descriptor, files: map<string, seq<Byte>>, data: seq<Byte>)
      requires i < list.Length
      reads host, list
    {
      && list[i] == d.(fd := list[i].fd, offset := d.offset + |data|) && list[i].fd != 0
      && PathOf(d) in files && host.files == FileWritten(files, PathOf(d), d.offset, data)
      && Synced(i) && AtEnd(list[i], host.files)
    }

    /** Nothing but this file has changed, and a file open for appending has grown by what was written. */
    ghost predicate Growing(i: nat, d: Descriptor, files: map<string, seq<Byte>>, added: seq<Byte>)
      requires i < list.Length
      reads host, list
    {
      && SameBut(files, host.files, PathOf(d))
      && (added == [] ==> host.files == files)
      && (d.flags.append && added != [] ==> Appended(i, files, added))
    }

    /** One turn of the write loop. */
    method WriteTurn(i: nat, data: seq<Byte>, seek: nat, ghost d: Descriptor, ghost files: map<string, seq<Byte>>)
      returns (res: int, next: nat)
      requires Valid() && i < MAX_DESCRIPTORS && list.Length == MAX_DESCRIPTORS && list[i].fd != 0 && seek <= |data|
      requires list[i] == d.(fd := list[i].fd, offset := d.offset + seek)
      requires Growing(i, d, files, data[..seek])
      modifies host, list
      ensures Valid() && OthersKept(i)
      ensures SameBut(files, host.files, PathOf(d))
      ensures if res <= 0 then next == seek && host.files == old(host.files) else next == seek + res <= |data|
      ensures res > 0 ==> Growing(i, d, files, data[..next])
      ensures res == 0 ==> seek == |data|
      ensures list[i] == d.(fd := list[i].fd, offset := d.offset + next) && list[i].fd != 0
      ensures old(WrittenSoFar(i, d, files, data[..seek])) ==> WrittenSoFar(i, d, files, data[..next])
      ensures old(Sound(i)) ==> Sound(i) && (d.flags.write ==> res >= 0)
      ensures !d.flags.write ==> res < 0
      ensures old(Stranded(i)) ==> res == ENODEV && list[i].fd == EEXIST
      ensures old(Dead(i)) ==> res == EBADF && list[i].fd == old(list[i]).fd
    {
      hide Valid;
      hide At;
      hide Sound;
      hide FileWritten;
      var remain := |data| - seek;
      var bufSize := if remain < MAX_IO_SIZE then remain else MAX_IO_SIZE;
      ghost var good := WrittenSoFar(i, d, files, data[..seek]);
      var chunk := data[seek..seek + bufSize];
      res := WriteStep(i, chunk);
      next := seek;
      if res < 0 { return; }
      next := seek + res;
      assert data[..next] == data[..seek] + chunk[..res];
      if good { WriteMore(files, PathOf(d), d.offset, data[..seek], chunk[..res]); }
      if d.flags.append && PathOf(d) in files { ExtendMany(files[PathOf(d)], data[..seek], chunk[..res]); }
    }

    /** Writes data in chunks. A result that is not an error means that all of it is in the file, at the recorded offset. */
    method Write(i: int, data: seq<Byte>) returns (res: int, ghost written: seq<Byte>)
      requires Valid() && list.Length == MAX_DESCRIPTORS && |data| < 0x8000_0000
      modifies host, list
      ensures Valid()
      ensures !(0 <= i < MAX_DESCRIPTORS) ==>
                res == EINVAL && list[..] == old(list[..]) && host.files == old(host.files) && host.handles == old(host.handles)
      ensures 0 <= i < MAX_DESCRIPTORS ==> OthersKept(i)
      ensures 0 <= i < MAX_DESCRIPTORS && old(list[i]).fd == 0 ==> res == EBADF && host.files == old(host.files) && list[i].fd == 0
      ensures 0 <= i < MAX_DESCRIPTORS && old(list[i]).fd != 0 && res >= 0 ==> res == |data|
      ensures 0 <= i < MAX_DESCRIPTORS && old(list[i]).fd != 0 ==>
                list[i] == FirstWrite(old(list[i]), data).(fd := list[i].fd, offset := old(list[i]).offset + |written|)
      ensures written <= data && (res >= 0 ==> written == data || old(list[i]).fd == 0)
      ensures 0 <= i < MAX_DESCRIPTORS ==> SameBut(old(host.files), host.files, PathOf(list[i]))
      ensures 0 <= i < MAX_DESCRIPTORS && old(list[i]).fd > 0 && old(Synced(i) && AtEnd(list[i], host.files)) ==>
                WrittenSoFar(i, FirstWrite(old(list[i]), data), old(host.files), written)
      ensures 0 <= i < MAX_DESCRIPTORS && old(list[i]).fd != 0 && old(list[i]).flags.append && data != [] && res >= 0 ==>
                && Appended(i, old(host.files), data)
                && (list[i].fd in host.handles ==> (Synced(i) <==> old(AtEnd(list[i], host.files))))
      ensures 0 <= i < MAX_DESCRIPTORS && old(Sound(i)) ==> Sound(i) && (old(list[i]).flags.write ==> res >= 0)
      ensures 0 <= i < MAX_DESCRIPTORS && !old(list[i]).flags.write ==> res < 0 && written == []
      ensures 0 <= i < MAX_DESCRIPTORS && old(Stranded(i)) ==> res == ENODEV && list[i].fd == EEXIST
      ensures 0 <= i < MAX_DESCRIPTORS && old(Dead(i)) ==> res == EBADF && list[i].fd == old(list[i]).fd
    {
      hide Valid;
      written := [];
      if !(0 <= i < MAX_DESCRIPTORS) { return EINVAL, []; }
      SetFirstWrite(i, data);
      ghost var d, files := list[i], host.files;
      if list[i].fd == 0 {
        res := WriteFree(i, data);
        return;
      }
      StartWriting(i);
      var seek := 0;
      assert data[..0] == [];
      while true
        invariant Valid() && OthersKept(i) && seek <= |data| && written == data[..seek]
        invariant Growing(i, d, files, data[..seek])
        invariant seek < |data| || data == []
        invariant list[i] == d.(fd := list[i].fd, offset := d.offset + seek) && list[i].fd != 0
        invariant d.fd > 0 && old(Synced(i) && AtEnd(list[i], host.files)) ==> WrittenSoFar(i, d, files, data[..seek])
        invariant old(Sound(i)) ==> Sound(i)
        invariant (old(Stranded(i)) ==> Stranded(i)) && (old(Dead(i)) ==> list[i].fd == old(list[i]).fd)
        invariant !d.flags.write ==> written == []
        decreases |data| - seek
      {
        res, seek := WriteTurn(i, data, seek, d, files);
        written := data[..seek];
        if res < 0 { return; }
        if res == 0 { break; }
        if seek >= |data| { break; }
      }
      res := seek;
    }

    /** The offset of the first write that is not empty is remembered. */
    function FirstWrite(d: Descriptor, data: seq<Byte>): Descriptor
    {
      if !d.firstWrite && data != [] then d.(firstWriteOffset := d.offset, firstWrite := true) else d
    }

    method SetFirstWrite(i: nat, data: seq<Byte>)
      requires Valid() && i < MAX_DESCRIPTORS && list.Length == MAX_DESCRIPTORS
      modifies list
      ensures Valid() && OthersKept(i) && list[i] == FirstWrite(old(list[i]), data)
      ensures Synced(i) <==> old(Synced(i))
      ensures Sound(i) <==> old(Sound(i))
      ensures AtEnd(list[i], host.files) <==> old(AtEnd(list[i], host.files))
    {
      var d := list[i];
      if !d.firstWrite && |data| > 0 { list[i] := d.(firstWriteOffset := d.offset, firstWrite := true); }
    }

    method WriteFree(i: nat, data: seq<Byte>) returns (res: int)
      requires Valid() && i < MAX_DESCRIPTORS && list[i].fd == 0
      modifies host
      ensures Valid() && host.files == old(host.files) && OthersKept(i) && res == EBADF
    {
      res := host.Write(list[i].fd, data[..Min(|data|, MAX_IO_SIZE)]);
    }

    lemma StartWriting(i: nat)
      requires Valid() && i < MAX_DESCRIPTORS && list[i].fd != 0
      ensures list[i].fd > 0 && Synced(i) && AtEnd(list[i], host.files) ==> WrittenSoFar(i, list[i], host.files, [])
    {
      if list[i].fd > 0 { WriteNothing(host.files, PathOf(list[i]), list[i].offset); }
    }

    // ---- seeking ----

    /** Where a seek from the recorded offset should lead. */
    ghost function Target(d: Descriptor, offset: int, whence: Whence): int
      requires PathOf(d) in host.files
      reads host
    {
      SeekTarget(|host.files[PathOf(d)]|, d.offset, offset, whence)
    }

    /** A result of a host seek. */
    ghost predicate SeekResult(i: nat, offset: int, whence: Whence, res: int)
      requires i < list.Length
      reads host, list
    {
      list[i].fd > 0 ==>
        && PathOf(list[i]) in host.files
        && var target := Target(list[i], offset, whence);
        && ((res == target && target >= 0) || res == ENODEV || (res == EINVAL && target < 0))
    }

    method HostSeek(i: nat, offset: int, whence: Whence) returns (res: int)
      requires Valid() && i < MAX_DESCRIPTORS && list[i].fd != 0
      modifies host
      ensures Valid() && host.files == old(host.files) && OthersKept(i)
      ensures res >= 0 || res == ENODEV || res == EBADF || res == EINVAL
      ensures res >= 0 ==> list[i].fd in host.handles && At(i, res)
      ensures old(Synced(i)) ==> SeekResult(i, offset, whence, res) && (res < 0 ==> Synced(i))
      ensures res == ENODEV || res >= 0 ==> list[i].fd > 0
      ensures old(JustOpened(i)) ==> res != ENODEV
      ensures (old(Stranded(i)) ==> res == ENODEV) && (Dead(i) ==> res == EBADF)
    {
      res := host.Lseek(list[i].fd, offset, whence);
    }

    /** Seeks, on a new handle if the old one is gone or if the result looks as if it were.
      The offset is recorded only when bit 31 of the result is clear. */
    method SeekOpen(i: nat, offset: int, whence: Whence) returns (res: int)
      requires Valid() && i < MAX_DESCRIPTORS && list.Length == MAX_DESCRIPTORS && list[i].fd != 0
      modifies host, list
      ensures Valid() && host.files == old(host.files) && OthersKept(i)
      ensures list[i].fd != 0
      ensures list[i] == old(list[i]).(fd := list[i].fd, offset := if res >= 0 && ToInt(res) >= 0 then res else old(list[i]).offset)
      ensures old(Synced(i)) && res < 0 ==> Synced(i)
      ensures old(Synced(i)) && res >= 0 && list[i].fd in host.handles ==>
                (Synced(i) <==> ToInt(res) >= 0 || res == old(list[i]).offset)
      ensures old(Synced(i)) && old(list[i]).fd > 0 ==>
                && PathOf(list[i]) in host.files
                && var target := Target(old(list[i]), offset, whence);
                && (res >= 0 ==> res == target)
                && (old(Sound(i)) ==> res == if target < 0 then EINVAL else target)
      ensures old(Sound(i)) ==> Sound(i)
      ensures old(Stranded(i)) ==> res == ENODEV && list[i].fd == EEXIST
      ensures old(Dead(i)) ==> res == EBADF && list[i].fd == old(list[i]).fd
    {
      hide Valid;
      ghost var d := list[i];
      res := HostSeek(i, offset, whence);
      ErrorInt();
      if ToInt(res) == ENODEV {
        var fd := Revive(i);
        if fd >= 0 { res := HostSeek(i, offset, whence); }
      }
      if ToInt(res) >= 0 { SetOffset(i, res); }
    }

    lemma ErrorInt()
      ensures ToInt(ENODEV) == ENODEV && ToInt(EBADF) == EBADF && ToInt(EINVAL) == EINVAL
    {
    }

    method SetOffset(i: nat, offset: nat)
      requires Valid() && i < MAX_DESCRIPTORS && list.Length == MAX_DESCRIPTORS
      modifies list
      ensures Valid() && OthersKept(i) && list[i] == old(list[i]).(offset := offset)
      ensures old(At(i, offset)) <==> Synced(i)
      ensures old(Sound(i)) <==> Sound(i)
    {
      list[i] := list[i].(offset := offset);
    }

    method Lseek(i: int, offset: int, whence: Whence) returns (res: int)
      requires Valid() && list.Length == MAX_DESCRIPTORS
      modifies host, list
      ensures Valid() && host.files == old(host.files)
      ensures !(0 <= i < MAX_DESCRIPTORS) ==>
                res == EINVAL && list[..] == old(list[..]) && host.handles == old(host.handles)
      ensures 0 <= i < MAX_DESCRIPTORS ==> OthersKept(i)
      ensures 0 <= i < MAX_DESCRIPTORS && old(list[i]).fd == 0 ==> res == EBADF && list[i] == old(list[i])
      ensures 0 <= i < MAX_DESCRIPTORS && old(list[i]).fd != 0 ==>
                list[i] == old(list[i]).(fd := list[i].fd,
                                         offset := if res >= 0 && ToInt(res) >= 0 then res else old(list[i]).offset)
      ensures 0 <= i < MAX_DESCRIPTORS && old(list[i]).fd > 0 && old(Synced(i)) ==>
                && PathOf(list[i]) in host.files
                && var target := Target(old(list[i]), offset, whence);
                && (res >= 0 ==> res == target)
                && (res < 0 ==> Synced(i))
                && (res >= 0 && list[i].fd in host.handles ==>
                      (Synced(i) <==> ToInt(target) >= 0 || target == old(list[i]).offset))
                && (old(Sound(i)) ==> Sound(i) && res == if target < 0 then EINVAL else target)
      ensures 0 <= i < MAX_DESCRIPTORS && old(Stranded(i)) ==> res == ENODEV && list[i].fd == EEXIST
      ensures 0 <= i < MAX_DESCRIPTORS && old(Dead(i)) ==> res == EBADF && list[i].fd == old(list[i]).fd
    {
      hide Valid;
      if !(0 <= i < MAX_DESCRIPTORS) { return EINVAL; }
      if list[i].fd == 0 {
        res := SeekFree(i, offset, whence);
        return;
      }
      res := SeekOpen(i, offset, whence);
    }

    method SeekFree(i: nat, offset: int, whence: Whence) returns (res: int)
      requires Valid() && i < MAX_DESCRIPTORS && list[i].fd == 0
      modifies host
      ensures Valid() && host.files == old(host.files) && OthersKept(i) && res == EBADF
    {
      res := host.Lseek(list[i].fd, offset, whence);
    }

    // ---- opening and closing ----

    /** The first free slot; a full table leaves the handle without one. */
    method AddDescriptor(fd: int, path: string, flags: Flags) returns (res: int)
      requires Valid() && list.Length == MAX_DESCRIPTORS && fd > 0 && fd in host.handles
      requires host.handles[fd] == Handle(HostPath(location, path), 0, flags)
      requires forall j :: 0 <= j < MAX_DESCRIPTORS ==> list[j].fd != fd
      modifies list
      ensures Valid()
      ensures if forall j :: 0 <= j < MAX_DESCRIPTORS ==> old(list[j]).fd != 0 then res == -1 && list[..] == old(list[..])
              else && 0 <= res < MAX_DESCRIPTORS && old(list[res]).fd == 0
                   && (forall j :: 0 <= j < res ==> old(list[j]).fd != 0)
                   && list[..] == old(list[..])[res := Descriptor(path, fd, 0, 0, false, flags)]
    {
      var i := 0;
      while i < MAX_DESCRIPTORS && list[i].fd != 0
        invariant 0 <= i <= MAX_DESCRIPTORS && forall j :: 0 <= j < i ==> list[j].fd != 0
      {
        i := i + 1;
      }
      if i == MAX_DESCRIPTORS { return -1; }
      list[i] := Descriptor(path, fd, 0, 0, false, flags);
      res := i;
    }

    /** Opens a file into the first free slot, at offset 0. */
    method Open(file: string, flags: Flags) returns (res: int)
      requires Valid() && list.Length == MAX_DESCRIPTORS
      modifies host, list
      ensures Valid() && OthersKept(res)
      ensures file == "" ==> res == EINVAL && host.files == old(host.files)
      ensures res < 0 ==> list[..] == old(list[..])
      ensures res >= 0 ==>
                && res < MAX_DESCRIPTORS && old(list[res]).fd == 0
                && (forall j :: 0 <= j < res ==> old(list[j]).fd != 0)
                && list[res] == Descriptor(file, list[res].fd, 0, 0, false, flags) && list[res].fd > 0
                && Synced(res) && old(host.CanOpen(HostPath(location, file), flags))
                && host.files == Created(old(host.files), HostPath(location, file))
      ensures host.files == old(host.files) ||
              (old(host.CanOpen(HostPath(location, file), flags)) && host.files == Created(old(host.files), HostPath(location, file)))
      ensures host.gentle && file != "" && old(host.CanOpen(HostPath(location, file), flags)) ==>
                && host.files == Created(old(host.files), HostPath(location, file))
                && (res < 0 ==> forall j :: 0 <= j < MAX_DESCRIPTORS ==> list[j].fd != 0)
    {
      if file == "" { return EINVAL; }
      var fd := host.Open(HostPath(location, file), flags);
      if fd < 0 { return fd; }
      res := AddDescriptor(fd, file, flags);
    }

    /** Closes slot i; a handle that is already gone counts as closed. */
    method Close(i: int) returns (res: int)
      requires Valid() && list.Length == MAX_DESCRIPTORS
      modifies host, list
      ensures Valid() && host.files == old(host.files)
      ensures !(0 <= i < MAX_DESCRIPTORS) ==> res == EINVAL && list[..] == old(list[..])
      ensures OthersKept(i)
      ensures 0 <= i < MAX_DESCRIPTORS && old(list[i]).fd > 0 ==> res == 0 && list[i] == FREE
      ensures 0 <= i < MAX_DESCRIPTORS && old(list[i]).fd <= 0 ==> res == EBADF && list[i] == old(list[i])
    {
      if !(0 <= i < MAX_DESCRIPTORS) { return EINVAL; }
      res := host.Close(list[i].fd);
      if res == ENODEV { res := 0; }
      if res >= 0 { list[i] := FREE; }
    }

    // ---- saving and restoring ----

    method CloseAllDescriptors()
      requires host.Valid()
      modifies host, list
      ensures host.Valid() && host.files == old(host.files)
      ensures forall i :: 0 <= i < list.Length ==> list[i] == FREE
      ensures forall o :: o in host.handles ==> o in old(host.handles) && host.handles[o] == old(host.handles[o])
    {
      for i := 0 to list.Length
        invariant host.Valid() && host.files == old(host.files)
        invariant forall o :: o in host.handles ==> o in old(host.handles) && host.handles[o] == old(host.handles[o])
      {
        if list[i].fd != 0 { var res := host.Close(list[i].fd); }
      }
      forall i | 0 <= i < list.Length { list[i] := FREE; }
    }

    /** The first n slots are open again, each at its saved offset; the others still hold stale handles. */
    ghost predicate Restored(saved: seq<Descriptor>, n: nat)
      reads host, list
    {
      && list.Length == |saved| && n <= |saved| && host.Valid()
      && (forall j :: n <= j < |saved| ==> list[j] == saved[j])
      && (forall j :: 0 <= j < n ==> list[j] == saved[j].(fd := list[j].fd) && (list[j].fd == 0 <==> saved[j].fd == 0))
      && (forall j :: 0 <= j < n ==> Linked(list[j]) && Synced(j))
      && (forall j, k :: 0 <= j < k < n && list[j].fd > 0 ==> list[j].fd != list[k].fd)
    }

    /** A gentle host will reopen this file. */
    ghost predicate Reopenable(d: Descriptor, files: map<string, seq<Byte>>)
    {
      d.fd != 0 && host.gentle && PathOf(d) in files && !Exclusive(d)
    }

    ghost predicate AllSound(saved: seq<Descriptor>, n: nat, files: map<string, seq<Byte>>)
      requires n <= |saved| == list.Length
      reads host, list
    {
      forall j :: 0 <= j < n && Reopenable(saved[j], files) ==> Sound(j)
    }

    /** Every file of before is still there, unchanged. */
    ghost predicate FilesKept(before: map<string, seq<Byte>>)
      reads host
    {
      forall p :: p in before ==> p in host.files && host.files[p] == before[p]
    }

    method RestoreSlot(i: nat, ghost saved: seq<Descriptor>, ghost files: map<string, seq<Byte>>)
      requires i < |saved| && Restored(saved, i) && FilesKept(files) && AllSound(saved, i, files)
      modifies host, list
      ensures Restored(saved, i + 1) && FilesKept(files) && AllSound(saved, i + 1, files)
    {
      if list[i].fd != 0 {
        var fd := ReopenFile(i);
        forall j | 0 <= j <= i ensures Linked(list[j]) && Synced(j) {
          if j < i { assert old(Linked(list[j]) && Synced(j)); }
        }
      }
    }

    /** Restoring a saved table reopens every file at its saved offset. */
    method SetFileDescriptors(saved: seq<Descriptor>)
      requires Valid() && |saved| == MAX_DESCRIPTORS && list.Length == MAX_DESCRIPTORS
      modifies host, list
      ensures Valid() && Restored(saved, MAX_DESCRIPTORS)
      ensures FilesKept(old(host.files)) && AllSound(saved, MAX_DESCRIPTORS, old(host.files))
    {
      hide Linked;
      CloseAllDescriptors();
      forall j | 0 <= j < MAX_DESCRIPTORS { list[j] := saved[j]; }
      for i := 0 to MAX_DESCRIPTORS
        invariant Restored(saved, i) && FilesKept(old(host.files)) && AllSound(saved, i, old(host.files))
      {
        RestoreSlot(i, saved, old(host.files));
      }
    }
  }

  /** An offset of 2 GiB looks negative, so a seek there is not recorded. */
  lemma SeekBeyond()
    ensures ToInt(0x8000_0000) < 0 && ToInt(0x7FFF_FFFF) >= 0 && ToInt(0x1_0000_0000) >= 0
    ensures ToInt(2147549203) == ENODEV
  {
  }

  /** The error codes, as the 32-bit patterns that the system defines, and the size of the table. */
  lemma ErrorCodes()
    ensures ToInt(0x8001_0002) == ENOENT && ToInt(0x8001_0009) == EBADF && ToInt(0x8001_0011) == EEXIST
    ensures ToInt(0x8001_0013) == ENODEV && ToInt(0x8001_0016) == EINVAL && MAX_DESCRIPTORS == 32
  {
  }

  /** Bit 31 decides. */
  lemma Recorded(target: nat)
    ensures ToInt(target) >= 0 <==> target / 0x8000_0000 % 2 == 0
  {
    var q, r := target / 0x8000_0000, target % 0x8000_0000;
    var h, b := q / 2, q % 2;
    assert target == 0x1_0000_0000 * h + 0x8000_0000 * b + r;
    assert target % 0x1_0000_0000 == 0x8000_0000 * b + r;
  }
}
