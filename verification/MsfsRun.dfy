/** Whole runs of requests: a host that keeps losing handles cannot be told from one that never does. */
module MsfsRun {
  import opened Bits
  import opened HostFiles
  import opened Msfs

  // ---- the file system without handles ----

  datatype Slot = Closed | Opened(path: string, offset: nat, flags: Flags)

  datatype State = State(files: map<string, seq<Byte>>, slots: seq<Slot>, location: string)

  datatype Request =
    | OpenRequest(file: string, flags: Flags)
    | CloseRequest(i: int)
    | ReadRequest(i: int, size: nat)
    | WriteRequest(i: int, data: seq<Byte>)
    | SeekRequest(i: int, offset: int, whence: Whence)

  datatype Answer = Refused | Bytes(data: seq<Byte>) | Count(n: nat)

  predicate StateOk(s: State)
  {
    |s.slots| == MAX_DESCRIPTORS && forall i :: 0 <= i < MAX_DESCRIPTORS && s.slots[i].Opened? ==> s.slots[i].path in s.files
  }

  function FirstFree(slots: seq<Slot>): (r: nat)
    ensures r <= |slots| && forall j :: 0 <= j < r ==> slots[j].Opened?
    ensures r < |slots| ==> slots[r].Closed?
  {
    if slots == [] || slots[0].Closed? then 0 else FirstFree(slots[1..]) + 1
  }

  /** One request, with files and offsets only. */
  function Respond(s: State, r: Request): (t: (State, Answer))
    requires StateOk(s)
    ensures StateOk(t.0)
  {
    if r.OpenRequest? then RespondOpen(s, r.file, r.flags)
    else if !(0 <= r.i < MAX_DESCRIPTORS) || s.slots[r.i].Closed? then (s, Refused)
    else RespondAt(s, r)
  }

  /** The first free slot is taken; when there is none the file has been made all the same. */
  function RespondOpen(s: State, file: string, flags: Flags): (t: (State, Answer))
    requires StateOk(s)
    ensures StateOk(t.0)
  {
    var path := HostPath(s.location, file);
    if file == "" || !(if path in s.files then !(flags.create && flags.exclusive) else flags.create) then (s, Refused)
    else
      var files := Created(s.files, path);
      var i := FirstFree(s.slots);
      if i == MAX_DESCRIPTORS then (s.(files := files), Refused)
      else (s.(files := files, slots := s.slots[i := Opened(path, 0, flags)]), Count(i))
  }

  function RespondAt(s: State, r: Request): (t: (State, Answer))
    requires StateOk(s) && !r.OpenRequest? && 0 <= r.i < MAX_DESCRIPTORS && s.slots[r.i].Opened?
    ensures StateOk(t.0)
  {
    var d := s.slots[r.i];
    var content := s.files[d.path];
    match r
    case CloseRequest(i) => (s.(slots := s.slots[i := Closed]), Count(0))
    case ReadRequest(i, size) =>
      if !d.flags.read then (s, Refused)
      else
        var data := ReadAt(content, d.offset, size);
        (s.(slots := s.slots[i := d.(offset := d.offset + |data|)]), Bytes(data))
    case WriteRequest(i, data) =>
      if !d.flags.write then (s, Refused)
      else
        (s.(files := FileWritten(s.files, d.path, d.offset, data), slots := s.slots[i := d.(offset := d.offset + |data|)]),
         Count(|data|))
    case SeekRequest(i, offset, whence) =>
      var target := SeekTarget(|content|, d.offset, offset, whence);
      if target < 0 then (s, Refused) else (s.(slots := s.slots[i := d.(offset := target)]), Count(target))
  }

  function RespondAll(s: State, rs: seq<Request>): (t: (State, seq<Answer>))
    requires StateOk(s)
    ensures StateOk(t.0) && |t.1| == |rs|
    decreases |rs|
  {
    if rs == [] then (s, [])
    else
      var (s1, a) := Respond(s, rs[0]);
      var (s2, as1) := RespondAll(s1, rs[1..]);
      (s2, [a] + as1)
  }

  /** No file is opened only to be created, sizes fit an int, a seek leads to an offset whose bit 31 is clear,
    and a file opened for appending is written where it ends. */
  predicate ModestOne(s: State, r: Request)
    requires StateOk(s)
  {
    match r
    case OpenRequest(_, flags) => !(flags.create && flags.exclusive)
    case CloseRequest(_) => true
    case ReadRequest(_, size) => size < 0x8000_0000
    case WriteRequest(i, data) =>
      && |data| < 0x8000_0000
      && (0 <= i < MAX_DESCRIPTORS && s.slots[i].Opened? && s.slots[i].flags.append ==>
            s.slots[i].offset == |s.files[s.slots[i].path]|)
    case SeekRequest(_, _, _) => Respond(s, r).1.Count? ==> ToInt(Respond(s, r).1.n) >= 0
  }

  predicate Modest(s: State, rs: seq<Request>)
    requires StateOk(s)
    decreases |rs|
  {
    rs != [] ==> ModestOne(s, rs[0]) && Modest(Respond(s, rs[0]).0, rs[1..])
  }

  // ---- what the table stands for ----

  ghost function SlotOf(t: Table, d: Descriptor): Slot
  {
    if d.fd == 0 then Closed else Opened(t.PathOf(d), d.offset, d.flags)
  }

  ghost function SlotsOf(t: Table, l: seq<Descriptor>): (r: seq<Slot>)
    ensures |r| == |l| && forall i :: 0 <= i < |l| ==> r[i] == SlotOf(t, l[i])
  {
    seq(|l|, i requires 0 <= i < |l| => SlotOf(t, l[i]))
  }

  ghost function StateOf(t: Table): State
    reads t.host, t.list
  {
    State(t.host.files, SlotsOf(t, t.list[..]), t.location)
  }

  /** Slot i can be reopened, and its handle stands where the slot says. */
  ghost predicate SlotReady(t: Table, i: nat)
    requires i < t.list.Length
    reads t.host, t.list
  {
    t.list[i].fd != 0 ==> t.Sound(i) && t.Synced(i)
  }

  ghost predicate OthersReady(t: Table, i: nat)
    reads t.host, t.list
  {
    forall j :: 0 <= j < t.list.Length && j != i ==> SlotReady(t, j)
  }

  ghost predicate Ready(t: Table)
    reads t, t.host, t.list
  {
    t.Valid() && t.host.gentle && forall j :: 0 <= j < t.list.Length ==> SlotReady(t, j)
  }

  lemma ReadySlot(t: Table, i: nat)
    requires Ready(t) && i < MAX_DESCRIPTORS
    ensures t.Valid() && SlotReady(t, i) && OthersReady(t, i) && StateOk(StateOf(t))
    ensures t.list[i].fd != 0 ==> t.PathOf(t.list[i]) in t.host.files
  {
    ReadyState(t);
    assert t.Linked(t.list[i]);
  }

  lemma ReadyAgain(t: Table, i: nat)
    requires t.Valid() && t.host.gentle && i < t.list.Length && SlotReady(t, i) && OthersReady(t, i)
    ensures Ready(t)
  {
    hide Table.Valid;
  }

  lemma ReadyState(t: Table)
    requires Ready(t)
    ensures StateOk(StateOf(t)) && t.list.Length == MAX_DESCRIPTORS
  {
    var s := StateOf(t);
    forall i | 0 <= i < MAX_DESCRIPTORS && s.slots[i].Opened? ensures s.slots[i].path in s.files {
      assert SlotReady(t, i) && t.Linked(t.list[i]) && t.list[..][i] == t.list[i];
    }
  }

  /** One slot has changed, and perhaps the files. */
  lemma StateAfter(t: Table, i: nat, l: seq<Descriptor>)
    requires t.list.Length == |l| && i < |l| && t.list[..] == l[i := t.list[i]]
    ensures StateOf(t) == State(t.host.files, SlotsOf(t, l)[i := SlotOf(t, t.list[i])], t.location)
    ensures SlotOf(t, t.list[i]) == SlotOf(t, l[i]) ==> StateOf(t) == State(t.host.files, SlotsOf(t, l), t.location)
  {
    hide SlotOf;
    if SlotOf(t, t.list[i]) == SlotOf(t, l[i]) {
      assert SlotsOf(t, l)[i := SlotsOf(t, l)[i]] == SlotsOf(t, l);
    }
  }

  // ---- one request to an open file ----

  /** A read that a gentle host lets succeed. */
  method ReadOpen(t: Table, i: nat, size: nat) returns (res: int, data: seq<Byte>)
    requires t.Valid() && t.list.Length == MAX_DESCRIPTORS && i < MAX_DESCRIPTORS && size < 0x8000_0000
    requires t.list[i].fd != 0 && SlotReady(t, i) && OthersReady(t, i) && t.PathOf(t.list[i]) in t.host.files
    modifies t.host, t.list
    ensures t.Valid() && t.host.files == old(t.host.files) && t.list[..] == old(t.list[..])[i := t.list[i]]
    ensures t.list[i] == old(t.list[i]).(fd := t.list[i].fd, offset := old(t.list[i]).offset + |data|)
    ensures t.list[i].fd != 0 && SlotReady(t, i) && OthersReady(t, i)
    ensures if t.list[i].flags.read
            then res >= 0 && data == ReadAt(old(t.host.files)[t.PathOf(t.list[i])], old(t.list[i]).offset, size)
            else res < 0 && data == []
  {
    hide Table.Valid;
    hide ReadAt;
    ghost var d := t.list[i];
    res, data := t.Read(i, size);
    assert t.ReadSoFar(i, d, data);
    forall j | 0 <= j < t.list.Length && j != i ensures SlotReady(t, j) {
      assert old(SlotReady(t, j)) && t.list[j] == old(t.list[j]);
    }
  }

  /** A write that a gentle host lets succeed. */
  method WriteOpen(t: Table, i: nat, data: seq<Byte>) returns (res: int)
    requires t.Valid() && t.list.Length == MAX_DESCRIPTORS && i < MAX_DESCRIPTORS && |data| < 0x8000_0000
    requires t.list[i].fd != 0 && SlotReady(t, i) && OthersReady(t, i) && t.PathOf(t.list[i]) in t.host.files
    requires t.AtEnd(t.list[i], t.host.files)
    modifies t.host, t.list
    ensures t.Valid() && t.list[..] == old(t.list[..])[i := t.list[i]]
    ensures t.list[i].fd != 0 && SlotReady(t, i) && OthersReady(t, i)
    ensures t.PathOf(t.list[i]) == t.PathOf(old(t.list[i])) && t.list[i].flags == old(t.list[i]).flags
    ensures if t.list[i].flags.write
            then && res == |data| && t.list[i].offset == old(t.list[i]).offset + |data|
                 && t.host.files == FileWritten(old(t.host.files), t.PathOf(t.list[i]), old(t.list[i]).offset, data)
            else res < 0 && t.list[i].offset == old(t.list[i]).offset && t.host.files == old(t.host.files)
  {
    hide Table.Valid;
    hide FileWritten;
    ghost var d, files := t.list[i], t.host.files;
    ghost var written;
    res, written := t.Write(i, data);
    assert t.WrittenSoFar(i, t.FirstWrite(d, data), files, written);
    WriteNothing(files, t.PathOf(d), d.offset);
    forall j | 0 <= j < t.list.Length && j != i ensures SlotReady(t, j) {
      assert old(SlotReady(t, j)) && t.list[j] == old(t.list[j]);
    }
  }

  /** A seek that a gentle host lets succeed. */
  method SeekOpen(t: Table, i: nat, offset: int, whence: Whence) returns (res: int)
    requires t.Valid() && t.list.Length == MAX_DESCRIPTORS && i < MAX_DESCRIPTORS
    requires t.list[i].fd != 0 && SlotReady(t, i) && OthersReady(t, i) && t.PathOf(t.list[i]) in t.host.files
    requires var target := t.Target(t.list[i], offset, whence); target < 0 || ToInt(target) >= 0
    modifies t.host, t.list
    ensures t.Valid() && t.host.files == old(t.host.files) && t.list[..] == old(t.list[..])[i := t.list[i]]
    ensures t.list[i].fd != 0 && SlotReady(t, i) && OthersReady(t, i)
    ensures t.PathOf(t.list[i]) == t.PathOf(old(t.list[i])) && t.list[i].flags == old(t.list[i]).flags
    ensures var target := old(t.Target(t.list[i], offset, whence));
            if target < 0 then res < 0 && t.list[i].offset == old(t.list[i]).offset
            else res == target == t.list[i].offset
  {
    hide Table.Valid;
    ghost var target := t.Target(t.list[i], offset, whence);
    res := t.Lseek(i, offset, whence);
    assert res == if target < 0 then EINVAL else target;
    forall j | 0 <= j < t.list.Length && j != i ensures SlotReady(t, j) {
      assert old(SlotReady(t, j)) && t.list[j] == old(t.list[j]);
    }
  }

  // ---- requests and runs ----

  /** A refused request changes nothing. */
  lemma Unmoved(t: Table, l: seq<Descriptor>, i: nat)
    requires t.list.Length == |l| && i < |l| && l[i].fd == 0 && t.list[..] == l[i := t.list[i]] && t.list[i].fd == 0
    ensures StateOf(t) == State(t.host.files, SlotsOf(t, l), t.location)
  {
    assert SlotsOf(t, t.list[..]) == SlotsOf(t, l);
  }

  /** The table's first free slot is the state's. */
  lemma FreeSlot(slots: seq<Slot>, i: nat)
    requires i <= |slots| && (forall j :: 0 <= j < i ==> slots[j].Opened?) && (i < |slots| ==> slots[i].Closed?)
    ensures FirstFree(slots) == i
  {
  }

  method ServeOpen(t: Table, file: string, flags: Flags) returns (a: Answer)
    requires Ready(t) && !(flags.create && flags.exclusive)
    modifies t.host, t.list
    ensures Ready(t) && StateOk(old(StateOf(t))) && (StateOf(t), a) == Respond(old(StateOf(t)), OpenRequest(file, flags))
  {
    hide Table.Valid;
    hide HostPath;
    ReadyState(t);
    ghost var l := t.list[..];
    var res := t.Open(file, flags);
    forall j | 0 <= j < t.list.Length && j != res ensures SlotReady(t, j) {
      assert old(SlotReady(t, j)) && t.list[j] == old(t.list[j]);
    }
    if res >= 0 {
      assert t.list[..] == l[res := t.list[res]];
      ReadyAgain(t, res);
      StateAfter(t, res, l);
      FreeSlot(SlotsOf(t, l), res);
    } else if file != "" && old(t.host.CanOpen(HostPath(t.location, file), flags)) {
      assert forall j :: 0 <= j < MAX_DESCRIPTORS ==> l[j] == t.list[j];
      FreeSlot(SlotsOf(t, l), MAX_DESCRIPTORS);
    }
    a := if res < 0 then Refused else Count(res);
  }

  method ServeClose(t: Table, i: int) returns (a: Answer)
    requires Ready(t)
    modifies t.host, t.list
    ensures Ready(t) && StateOk(old(StateOf(t))) && (StateOf(t), a) == Respond(old(StateOf(t)), CloseRequest(i))
  {
    hide Table.Valid;
    ReadyState(t);
    ghost var l := t.list[..];
    var res := t.Close(i);
    forall j | 0 <= j < t.list.Length && j != i ensures SlotReady(t, j) {
      assert old(SlotReady(t, j)) && t.list[j] == old(t.list[j]);
    }
    if 0 <= i < MAX_DESCRIPTORS {
      assert old(SlotReady(t, i)) && t.list[..] == l[i := t.list[i]];
      ReadyAgain(t, i);
      StateAfter(t, i, l);
    } else {
      assert t.list[..] == l;
    }
    a := if res < 0 then Refused else Count(res);
  }

  method ServeRead(t: Table, i: int, size: nat) returns (a: Answer)
    requires Ready(t) && size < 0x8000_0000
    modifies t.host, t.list
    ensures Ready(t) && StateOk(old(StateOf(t))) && (StateOf(t), a) == Respond(old(StateOf(t)), ReadRequest(i, size))
  {
    hide Table.Valid;
    hide ReadAt;
    ReadyState(t);
    ghost var l := t.list[..];
    var res, data;
    if 0 <= i < MAX_DESCRIPTORS && t.list[i].fd != 0 {
      ReadySlot(t, i);
      res, data := ReadOpen(t, i, size);
      ReadyAgain(t, i);
      StateAfter(t, i, l);
    } else {
      res, data := t.Read(i, size);
      assert t.list[..] == l;
      assert forall j :: 0 <= j < t.list.Length ==> old(SlotReady(t, j)) ==> SlotReady(t, j);
    }
    a := if res < 0 then Refused else Bytes(data);
  }

  method ServeWrite(t: Table, i: int, data: seq<Byte>) returns (a: Answer)
    requires Ready(t) && StateOk(StateOf(t)) && ModestOne(StateOf(t), WriteRequest(i, data))
    modifies t.host, t.list
    ensures Ready(t) && StateOk(old(StateOf(t))) && (StateOf(t), a) == Respond(old(StateOf(t)), WriteRequest(i, data))
  {
    hide Table.Valid;
    hide FileWritten;
    ReadyState(t);
    ghost var l := t.list[..];
    var res;
    if 0 <= i < MAX_DESCRIPTORS && t.list[i].fd != 0 {
      ReadySlot(t, i);
      res := WriteOpen(t, i, data);
      ReadyAgain(t, i);
      StateAfter(t, i, l);
    } else {
      ghost var written;
      res, written := t.Write(i, data);
      if 0 <= i < MAX_DESCRIPTORS { Unmoved(t, l, i); }
      assert forall j :: 0 <= j < t.list.Length ==> old(SlotReady(t, j)) ==> SlotReady(t, j);
    }
    a := if res < 0 then Refused else Count(res);
  }

  method ServeSeek(t: Table, i: int, offset: int, whence: Whence) returns (a: Answer)
    requires Ready(t) && StateOk(StateOf(t)) && ModestOne(StateOf(t), SeekRequest(i, offset, whence))
    modifies t.host, t.list
    ensures Ready(t) && StateOk(old(StateOf(t))) && (StateOf(t), a) == Respond(old(StateOf(t)), SeekRequest(i, offset, whence))
  {
    hide Table.Valid;
    ReadyState(t);
    ghost var l := t.list[..];
    var res;
    if 0 <= i < MAX_DESCRIPTORS && t.list[i].fd != 0 {
      ReadySlot(t, i);
      res := SeekOpen(t, i, offset, whence);
      ReadyAgain(t, i);
      StateAfter(t, i, l);
    } else {
      res := t.Lseek(i, offset, whence);
      assert t.list[..] == l;
      assert forall j :: 0 <= j < t.list.Length ==> old(SlotReady(t, j)) ==> SlotReady(t, j);
    }
    a := if res < 0 then Refused else Count(res);
  }

  method Serve(t: Table, r: Request) returns (a: Answer)
    requires Ready(t) && StateOk(StateOf(t)) && ModestOne(StateOf(t), r)
    modifies t.host, t.list
    ensures Ready(t) && StateOk(old(StateOf(t))) && (StateOf(t), a) == Respond(old(StateOf(t)), r)
  {
    hide Ready;
    hide Respond;
    hide StateOk;
    match r {
      case OpenRequest(file, flags) => a := ServeOpen(t, file, flags);
      case CloseRequest(i) => a := ServeClose(t, i);
      case ReadRequest(i, size) => a := ServeRead(t, i, size);
      case WriteRequest(i, data) => a := ServeWrite(t, i, data);
      case SeekRequest(i, offset, whence) => a := ServeSeek(t, i, offset, whence);
    }
  }

  /** However often the host drops its handles during a run of requests,
    the answers and the files are those of a host that never drops one. */
  method Run(t: Table, rs: seq<Request>) returns (answers: seq<Answer>)
    requires Ready(t) && StateOk(StateOf(t)) && Modest(StateOf(t), rs)
    modifies t.host, t.list
    ensures Ready(t) && StateOk(old(StateOf(t))) && (StateOf(t), answers) == RespondAll(old(StateOf(t)), rs)
    decreases |rs|
  {
    hide Ready;
    hide Respond;
    hide StateOk;
    hide StateOf;
    answers := [];
    if rs != [] {
      var a := Serve(t, rs[0]);
      var rest := Run(t, rs[1..]);
      answers := [a] + rest;
    }
  }

  // ---- files do not mix ----

  /** The requests leave slot j alone and write only to other files than the one it has open. */
  predicate Elsewhere(s: State, rs: seq<Request>, j: nat)
    requires StateOk(s) && j < MAX_DESCRIPTORS && s.slots[j].Opened?
    decreases |rs|
  {
    rs != [] ==>
      && ElsewhereOne(s, rs[0], j) && Respond(s, rs[0]).0.slots[j].Opened?
      && Elsewhere(Respond(s, rs[0]).0, rs[1..], j)
  }

  predicate ElsewhereOne(s: State, r: Request, j: nat)
    requires StateOk(s) && j < MAX_DESCRIPTORS && s.slots[j].Opened?
  {
    && (!r.OpenRequest? ==> r.i != j)
    && (r.WriteRequest? && 0 <= r.i < MAX_DESCRIPTORS && s.slots[r.i].Opened? ==> s.slots[r.i].path != s.slots[j].path)
  }

  lemma UndisturbedOne(s: State, r: Request, j: nat)
    requires StateOk(s) && j < MAX_DESCRIPTORS && s.slots[j].Opened? && ElsewhereOne(s, r, j)
    ensures var t := Respond(s, r).0;
            t.slots[j] == s.slots[j] && t.files[s.slots[j].path] == s.files[s.slots[j].path]
  {
    hide FileWritten;
    hide HostPath;
    if r.WriteRequest? && 0 <= r.i < MAX_DESCRIPTORS && s.slots[r.i].Opened? {
      OtherFile(s.files, s.slots[r.i].path, s.slots[r.i].offset, r.data, s.slots[j].path);
    }
  }

  lemma OtherFile(files: map<string, seq<Byte>>, path: string, pos: nat, data: seq<Byte>, other: string)
    requires path in files && other in files && path != other
    ensures FileWritten(files, path, pos, data)[other] == files[other]
  {
  }

  /** Whatever happens elsewhere, a slot keeps its offset, its file keeps its bytes, and a read gets the same. */
  lemma {:induction false} Undisturbed(s: State, rs: seq<Request>, j: nat, size: nat)
    requires StateOk(s) && j < MAX_DESCRIPTORS && s.slots[j].Opened? && Elsewhere(s, rs, j)
    ensures var t := RespondAll(s, rs).0;
            && t.slots[j] == s.slots[j] && t.files[s.slots[j].path] == s.files[s.slots[j].path]
            && Respond(t, ReadRequest(j, size)).1 == Respond(s, ReadRequest(j, size)).1
    decreases |rs|
  {
    hide Respond;
    if rs != [] {
      UndisturbedOne(s, rs[0], j);
      Undisturbed(Respond(s, rs[0]).0, rs[1..], j, size);
    }
    SameRead(s, RespondAll(s, rs).0, j, size);
  }

  lemma SameRead(s: State, t: State, j: nat, size: nat)
    requires StateOk(s) && StateOk(t) && j < MAX_DESCRIPTORS && s.slots[j].Opened?
    requires t.slots[j] == s.slots[j] && t.files[s.slots[j].path] == s.files[s.slots[j].path]
    ensures Respond(t, ReadRequest(j, size)).1 == Respond(s, ReadRequest(j, size)).1
  {
  }

  /** What an open does when it takes a slot. */
  lemma OpenTakes(s: State, file: string, flags: Flags)
    requires StateOk(s) && Respond(s, OpenRequest(file, flags)).1.Count?
    ensures var (t, a) := Respond(s, OpenRequest(file, flags));
            var path := HostPath(s.location, file);
            && a.n < MAX_DESCRIPTORS == |s.slots| && s.slots[a.n].Closed? && t.slots == s.slots[a.n := Opened(path, 0, flags)]
            && t.files == Created(s.files, path) && t.location == s.location
  {
  }

  /** Two names on the same side of the prefix, with one leading slash dropped, that are not the same. */
  ghost predicate NamesDiffer(a: string, b: string)
  {
    var na := if a != "" && a[0] == '/' then a[1..] else a;
    var nb := if b != "" && b[0] == '/' then b[1..] else b;
    na != nb && ("__ADRENALINE__" <= na <==> "__ADRENALINE__" <= nb)
  }

  /** Two files opened under names that differ are two files: their slots and their paths are not the same. */
  lemma TwoSlots(s: State, a: string, b: string, flagsA: Flags, flagsB: Flags)
    requires StateOk(s) && NamesDiffer(a, b)
    requires Respond(s, OpenRequest(a, flagsA)).1.Count?
    requires Respond(Respond(s, OpenRequest(a, flagsA)).0, OpenRequest(b, flagsB)).1.Count?
    ensures var (s1, first) := Respond(s, OpenRequest(a, flagsA));
            var (s2, second) := Respond(s1, OpenRequest(b, flagsB));
            var pathA, pathB := HostPath(s.location, a), HostPath(s.location, b);
            && first.n < MAX_DESCRIPTORS && second.n < MAX_DESCRIPTORS && first.n != second.n
            && s2.slots[first.n] == Opened(pathA, 0, flagsA) && s2.slots[second.n] == Opened(pathB, 0, flagsB)
            && pathA != pathB && s2.files == Created(Created(s.files, pathA), pathB)
  {
    hide Respond;
    OpenTakes(s, a, flagsA);
    OpenTakes(Respond(s, OpenRequest(a, flagsA)).0, b, flagsB);
    PathsApart(s.location, a, b);
  }

  /** A run over two files opened under names that differ: a read of the second does not see what was written to the first. */
  method TwoFiles(t: Table, a: string, b: string, flagsA: Flags, flagsB: Flags, data: seq<Byte>, size: nat)
    returns (first: Answer, second: Answer, read: Answer)
    requires Ready(t) && StateOk(StateOf(t)) && NamesDiffer(a, b) && |data| < 0x8000_0000 && size < 0x8000_0000
    requires !(flagsA.create && flagsA.exclusive) && !(flagsB.create && flagsB.exclusive)
    requires flagsA.append && HostPath(t.location, a) in t.host.files ==> t.host.files[HostPath(t.location, a)] == []
    modifies t.host, t.list
    ensures Ready(t)
    ensures first.Count? && second.Count? && flagsB.read ==>
              var path := HostPath(t.location, b);
              read == Bytes(ReadAt(if path in old(t.host.files) then old(t.host.files)[path] else [], 0, size))
  {
    hide Ready;
    hide Respond;
    hide StateOk;
    hide HostPath;
    hide ReadAt;
    ghost var s := StateOf(t);
    read := Refused;
    first := Serve(t, OpenRequest(a, flagsA));
    ghost var s1 := StateOf(t);
    second := Serve(t, OpenRequest(b, flagsB));
    ghost var s2 := StateOf(t);
    if first.Count? && second.Count? {
      TwoSlots(s, a, b, flagsA, flagsB);
      var write, back := WriteRequest(first.n, data), ReadRequest(second.n, size);
      var wrote := Serve(t, write);
      UndisturbedOne(s2, write, second.n);
      read := Serve(t, back);
      SameRead(s2, Respond(s2, write).0, second.n, size);
      if flagsB.read { ReadIs(s2, second.n, size); }
    }
  }

  lemma ReadIs(s: State, i: nat, size: nat)
    requires StateOk(s) && i < MAX_DESCRIPTORS && s.slots[i].Opened? && s.slots[i].flags.read
    ensures s.slots[i].path in s.files
    ensures Respond(s, ReadRequest(i, size)).1 == Bytes(ReadAt(s.files[s.slots[i].path], s.slots[i].offset, size))
  {
  }

  /** What was written is read back from where it was written. */
  lemma ReadWritten(content: seq<Byte>, pos: nat, data: seq<Byte>)
    ensures ReadAt(WriteAt(content, pos, data), pos, |data|) == data || data == []
    ensures |ReadAt(WriteAt(content, pos, data), pos, |data|)| <= |data|
  {
    if data != [] { assert WriteAt(content, pos, data)[pos..pos + |data|] == data; }
  }

  lemma WriteIs(s: State, i: nat, data: seq<Byte>)
    requires StateOk(s) && i < MAX_DESCRIPTORS && s.slots[i].Opened? && s.slots[i].flags.write
    ensures var t := Respond(s, WriteRequest(i, data)).0;
            && t.files == FileWritten(s.files, s.slots[i].path, s.slots[i].offset, data)
            && |t.slots| == MAX_DESCRIPTORS && t.slots[i] == s.slots[i].(offset := s.slots[i].offset + |data|)
  {
  }

  lemma RewindIs(s: State, i: nat)
    requires StateOk(s) && i < MAX_DESCRIPTORS && s.slots[i].Opened?
    ensures var (t, a) := Respond(s, SeekRequest(i, 0, Set));
            a == Count(0) && t.files == s.files && |t.slots| == MAX_DESCRIPTORS && t.slots[i] == s.slots[i].(offset := 0)
  {
  }

  /** A run over one file: what is written to it is read back after rewinding. */
  method ReadBack(t: Table, a: string, flags: Flags, data: seq<Byte>) returns (first: Answer, read: Answer)
    requires Ready(t) && StateOk(StateOf(t)) && data != [] && |data| < 0x8000_0000
    requires flags.read && flags.write && !(flags.create && flags.exclusive)
    requires flags.append && HostPath(t.location, a) in t.host.files ==> t.host.files[HostPath(t.location, a)] == []
    modifies t.host, t.list
    ensures Ready(t) && (first.Count? ==> read == Bytes(data))
  {
    hide Ready;
    hide Respond;
    hide StateOk;
    hide HostPath;
    hide ReadAt;
    hide WriteAt;
    ghost var s := StateOf(t);
    read := Refused;
    first := Serve(t, OpenRequest(a, flags));
    if first.Count? {
      OpenTakes(s, a, flags);
      ghost var s1 := StateOf(t);
      var wrote := Serve(t, WriteRequest(first.n, data));
      WriteIs(s1, first.n, data);
      ghost var s2 := StateOf(t);
      RewindIs(s2, first.n);
      var moved := Serve(t, SeekRequest(first.n, 0, Set));
      ReadIs(StateOf(t), first.n, |data|);
      read := Serve(t, ReadRequest(first.n, |data|));
      ReadWritten(s1.files[s1.slots[first.n].path], 0, data);
    }
  }
}
