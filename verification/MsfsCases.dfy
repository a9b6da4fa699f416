/** Single runs on which the descriptor layer does not hide that a handle was lost. */
module MsfsCases {
  import opened Bits
  import opened HostFiles
  import opened Msfs

  const CREATE := Flags(false, true, false, true, false)
  const EXCLUSIVE := Flags(true, true, false, true, true)
  const SHARED := Flags(true, true, false, true, false)
  const APPEND := Flags(true, true, true, false, false)

  /** A gentle host without files, and an empty table on it. */
  method Start() returns (host: Host, t: Table)
    ensures fresh(host) && fresh(t) && fresh(t.list) && t.host == host && host.gentle && t.Valid() && host.files == map[]
    ensures t.list.Length == MAX_DESCRIPTORS && forall i :: 0 <= i < MAX_DESCRIPTORS ==> t.list[i] == FREE
  {
    host := new Host(true);
    t := new Table(host, "ms0:");
  }

  /** The host drops the handle of slot i. */
  method Drop(t: Table, i: nat)
    requires t.Valid() && i < MAX_DESCRIPTORS
    modifies t.host
    ensures t.Valid() && t.list[i].fd !in t.host.handles && t.host.files == old(t.host.files)
  {
    var res := t.host.Close(t.list[i].fd);
  }

  /** A file opened for exclusive creation is lost with its handle: the read that finds it gone fails, and so does every other. */
  method ExclusiveLost() returns (slot: int, read: int, again: int)
    ensures slot == 0 && read == ENODEV && again == EBADF
  {
    hide Table.Valid;
    var host, t := Start();
    var data;
    slot := t.Open("a", EXCLUSIVE);
    Drop(t, 0);
    read, data := t.Read(0, 1);
    again, data := t.Read(0, 1);
  }

  /** Without exclusive creation the same run does not show the loss. */
  method SharedKept() returns (slot: int, read: int, again: int)
    ensures slot == 0 && read == 0 && again == 0
  {
    hide Table.Valid;
    var host, t := Start();
    var data;
    slot := t.Open("a", SHARED);
    Drop(t, 0);
    read, data := t.Read(0, 1);
    again, data := t.Read(0, 1);
  }

  /** A file of three bytes, closed again. */
  method ThreeBytes() returns (host: Host, t: Table)
    ensures fresh(host) && fresh(t) && fresh(t.list) && t.host == host && host.gentle && t.Valid()
    ensures host.files == map[HostPath(t.location, "a") := [1, 2, 3]]
    ensures t.list.Length == MAX_DESCRIPTORS && forall i :: 0 <= i < MAX_DESCRIPTORS ==> t.list[i] == FREE
  {
    hide Table.Valid;
    host, t := Start();
    ghost var written;
    var slot := t.Open("a", CREATE);
    ghost var path, before := HostPath(t.location, "a"), host.files;
    assert before == map[path := []];
    var res;
    res, written := t.Write(0, [1, 2, 3]);
    assert host.files == FileWritten(before, path, 0, [1, 2, 3]);
    assert WriteAt([], 0, [1, 2, 3]) == [1, 2, 3] by { WriteAtEnd([], [1, 2, 3]); }
    res := t.Close(0);
  }

  /** A byte appended to a file that was opened at its beginning: after the handle is lost, reading goes on from
    offset 1, although the byte was written at the end. */
  method AppendMisplaced() returns (data: seq<Byte>)
    ensures data == [2, 3, 9]
  {
    hide Table.Valid;
    var host, t := ThreeBytes();
    ghost var written;
    ghost var path := HostPath(t.location, "a");
    var slot := t.Open("a", APPEND);
    var res;
    res, written := t.Write(0, [9]);
    assert host.files[path] == [1, 2, 3] + [9];
    Drop(t, 0);
    res, data := t.Read(0, 10);
    assert data == ReadAt(host.files[path], 1, 10);
  }
}
