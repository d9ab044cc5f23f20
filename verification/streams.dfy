/** Many handles, one driver: every handle behaves as if it were alone. */
module Streams {
  import opened Bytes
  import opened Characters
  import opened FatDriver
  import opened PathLookup
  import opened ShortNames
  import opened Volumes

  /** What a handle stands for. */
  datatype Stream = Stream(content: seq<byte>, position: nat) {
    predicate Valid() { position <= |content| }

    function Take(count: nat): (n: nat)
      requires Valid()
    {
      Min(count, |content| - position)
    }

    function Output(count: nat): seq<byte>
      requires Valid()
    {
      content[position..position + Take(count)]
    }

    function After(count: nat): (s: Stream)
      requires Valid()
      ensures s.Valid()
    {
      Stream(content, position + Take(count))
    }
  }

  /** Opening by directory entry is `FAT_OpenEntry`, opening by path is `FAT_Open`. */
  datatype Operation =
    | OpenOp(entry: DirEntry)
    | PathOp(path: seq<byte>)
    | ReadOp(handle: int, count: u32)
    | CloseOp(handle: int)

  type View = m: map<int, Stream> | forall h :: h in m ==> m[h].Valid()

  // ----- the abstract machine

  function LowestUnused(view: View, h: nat): (r: nat)
    requires h <= MAX_FILE_HANDLES && forall k :: 0 <= k < h ==> k in view
    ensures h <= r <= MAX_FILE_HANDLES && (forall k :: 0 <= k < r ==> k in view)
    ensures r < MAX_FILE_HANDLES ==> r !in view
    decreases MAX_FILE_HANDLES - h
  {
    if h == MAX_FILE_HANDLES || h !in view then h else LowestUnused(view, h + 1)
  }

  /** The lowest unused handle, if there is one, at the start of an entry's contents. */
  function Opened(v: Volume, view: View, e: DirEntry): View
    requires v.Good()
  {
    var h := LowestUnused(view, 0);
    if h < MAX_FILE_HANDLES then view[h := Stream(v.Content(e), 0)] else view
  }

  function Granted(view: View): FilePtr {
    var h := LowestUnused(view, 0);
    if h < MAX_FILE_HANDLES then File(h) else Null
  }

  /** Where a path leads that does not stand for the root itself. */
  function Target(v: Volume, path: seq<byte>): Resolution
    requires v.Good()
  {
    if Stripped(path) == [] then Missing else Resolve(v, v.RootBytes(), Stripped(path), 0)
  }

  function PathOpened(v: Volume, view: View, path: seq<byte>): View
    requires v.Good()
  {
    var found := Target(v, path);
    if found.Found? then Opened(v, view, found.entry) else view
  }

  /** A path made of nothing but a slash stands for the root. */
  function PathGranted(v: Volume, view: View, path: seq<byte>): FilePtr
    requires v.Good()
  {
    if Stripped(path) == [] then File(ROOT_DIRECTORY_HANDLE)
    else if Target(v, path).Found? then Granted(view) else Null
  }

  function AfterRead(view: View, h: int, count: nat): View {
    if h in view then view[h := view[h].After(count)] else view
  }

  function ReadOutput(view: View, h: int, count: nat): seq<byte> {
    if h in view then view[h].Output(count) else []
  }

  function Next(v: Volume, view: View, op: Operation): View
    requires v.Good()
  {
    match op
    case OpenOp(e) => Opened(v, view, e)
    case PathOp(path) => PathOpened(v, view, path)
    case ReadOp(h, count) => AfterRead(view, h, count)
    case CloseOp(h) => view - {h}
  }

  /** What an operation gives its caller. */
  datatype Answer = Data(bytes: seq<byte>) | Handle(file: FilePtr) | Nothing

  function Output(v: Volume, view: View, op: Operation): Answer
    requires v.Good()
  {
    match op
    case OpenOp(_) => Handle(Granted(view))
    case PathOp(path) => Handle(PathGranted(v, view, path))
    case ReadOp(h, count) => Data(ReadOutput(view, h, count))
    case CloseOp(_) => Nothing
  }

  /** What a program gives out, one answer for each operation. */
  function Run(v: Volume, view: View, ops: seq<Operation>): (outs: seq<Answer>)
    requires v.Good()
    ensures |outs| == |ops|
    decreases |ops|
  {
    if ops == [] then [] else [Output(v, view, ops[0])] + Run(v, Next(v, view, ops[0]), ops[1..])
  }

  /** The view that a program leaves behind. */
  function Final(v: Volume, view: View, ops: seq<Operation>): View
    requires v.Good()
    decreases |ops|
  {
    if ops == [] then view else Final(v, Next(v, view, ops[0]), ops[1..])
  }

  lemma Associative<T>(a: seq<T>, b: seq<T>, c: seq<T>)
    ensures a + b + c == a + (b + c)
  {
  }

  lemma RunFirst(v: Volume, view: View, ops: seq<Operation>, op: Operation, rest: seq<Operation>)
    requires v.Good() && ops == [op] + rest
    ensures Run(v, view, ops) == [Output(v, view, op)] + Run(v, Next(v, view, op), rest)
    ensures Final(v, view, ops) == Final(v, Next(v, view, op), rest)
  {
    assert ops[1..] == rest;
  }

  /** Two programs one after the other are one program. */
  lemma {:induction false} RunJoin(v: Volume, view: View, ops: seq<Operation>, more: seq<Operation>)
    requires v.Good()
    ensures Run(v, view, ops + more) == Run(v, view, ops) + Run(v, Final(v, view, ops), more)
    ensures Final(v, view, ops + more) == Final(v, Final(v, view, ops), more)
    decreases |ops|
  {
    if ops == [] {
      assert ops + more == more;
    } else {
      var now, rest, out := Next(v, view, ops[0]), ops[1..], Output(v, view, ops[0]);
      RunJoin(v, now, rest, more);
      var a, b := Run(v, now, rest), Run(v, Final(v, now, rest), more);
      Associative([ops[0]], rest, more);
      Associative([out], a, b);
      assert ops == [ops[0]] + rest;
      RunFirst(v, view, ops + more, ops[0], rest + more);
      RunFirst(v, view, ops, ops[0], rest);
    }
  }

  // ----- isolation

  function Piece(op: Operation, out: Answer, h: int): seq<byte> {
    if op.ReadOp? && op.handle == h && out.Data? then out.bytes else []
  }

  /** What the reads of `h` among `ops` gave out, in one piece. */
  function Received(ops: seq<Operation>, outs: seq<Answer>, h: int): seq<byte>
    requires |ops| == |outs|
    decreases |ops|
  {
    if ops == [] then [] else Piece(ops[0], outs[0], h) + Received(ops[1..], outs[1..], h)
  }

  function Wanted(op: Operation, h: int): nat {
    if op.ReadOp? && op.handle == h then op.count else 0
  }

  /** How much they asked for. */
  function Asked(ops: seq<Operation>, h: int): nat
    decreases |ops|
  {
    if ops == [] then 0 else Wanted(ops[0], h) + Asked(ops[1..], h)
  }

  /** Two reads in a row are one longer read. */
  lemma OutputJoin(s: Stream, a: nat, b: nat)
    requires s.Valid()
    ensures s.Output(a) + s.After(a).Output(b) == s.Output(a + b)
    ensures s.After(a).After(b) == s.After(a + b)
  {
  }

  /** A step moves a stream by what was read from it, and by nothing else. */
  lemma NextMoves(v: Volume, view: View, op: Operation, h: int)
    requires v.Good() && h in view && op != CloseOp(h)
    ensures h in Next(v, view, op) && Next(v, view, op)[h] == view[h].After(Wanted(op, h))
    ensures Piece(op, Output(v, view, op), h) == view[h].Output(Wanted(op, h))
  {
  }

  /** The same, taken off the machine step by step. */
  function Delivery(v: Volume, view: View, ops: seq<Operation>, h: int): seq<byte>
    requires v.Good()
    decreases |ops|
  {
    if ops == [] then []
    else Piece(ops[0], Output(v, view, ops[0]), h) + Delivery(v, Next(v, view, ops[0]), ops[1..], h)
  }

  lemma {:induction false} ReceivedIsDelivery(v: Volume, view: View, ops: seq<Operation>, h: int)
    requires v.Good()
    ensures Received(ops, Run(v, view, ops), h) == Delivery(v, view, ops, h)
    decreases |ops|
  {
    if ops != [] {
      ReceivedIsDelivery(v, Next(v, view, ops[0]), ops[1..], h);
      assert Run(v, view, ops)[1..] == Run(v, Next(v, view, ops[0]), ops[1..]);
    }
  }

  lemma {:induction false} DeliveryIsOutput(v: Volume, view: View, ops: seq<Operation>, h: int)
    requires v.Good() && h in view && CloseOp(h) !in ops
    ensures Delivery(v, view, ops, h) == view[h].Output(Asked(ops, h))
    decreases |ops|
  {
    if ops != [] {
      var op, rest, s := ops[0], ops[1..], view[h];
      var a, b := Wanted(op, h), Asked(rest, h);
      NextMoves(v, view, op, h);
      DeliveryIsOutput(v, Next(v, view, op), rest, h);
      OutputJoin(s, a, b);
    }
  }

  /** Whatever else is opened, read and closed in between, the reads of an open handle
      give out its contents from its position on, without a gap: nothing depends on
      how they are cut into calls, or on the other handles. */
  lemma Isolation(v: Volume, view: View, ops: seq<Operation>, h: int)
    requires v.Good() && h in view && CloseOp(h) !in ops
    ensures Received(ops, Run(v, view, ops), h) == view[h].Output(Asked(ops, h))
  {
    ReceivedIsDelivery(v, view, ops, h);
    DeliveryIsOutput(v, view, ops, h);
  }

  /** In the end the handle has moved by what was read from it. */
  lemma {:induction false} StreamMoved(v: Volume, view: View, ops: seq<Operation>, h: int)
    requires v.Good() && h in view && CloseOp(h) !in ops
    ensures h in Final(v, view, ops) && Final(v, view, ops)[h] == view[h].After(Asked(ops, h))
    decreases |ops|
  {
    if ops != [] {
      NextMoves(v, view, ops[0], h);
      StreamMoved(v, Next(v, view, ops[0]), ops[1..], h);
      OutputJoin(view[h], Wanted(ops[0], h), Asked(ops[1..], h));
    }
  }

  /** A file that its chain is long enough for, read to the end right after it was opened: what
      comes out is as many bytes of its clusters as the entry says. */
  lemma OpenThenRead(v: Volume, view: View, e: DirEntry, count: u32)
    requires v.Good() && LowestUnused(view, 0) < MAX_FILE_HANDLES && !e.IsDirectory() && e.size <= count
    requires e.size <= |v.Concatenated(v.Chain(e.firstCluster, v.clusters))|
    ensures var h := LowestUnused(view, 0);
      Run(v, view, [OpenOp(e), ReadOp(h, count)])
      == [Handle(File(h)), Data(v.Concatenated(v.Chain(e.firstCluster, v.clusters))[..e.size])]
  {
    FirstRead(v, view, e, count);
    var h, view' := LowestUnused(view, 0), Opened(v, view, e);
    RunFirst(v, view, [OpenOp(e), ReadOp(h, count)], OpenOp(e), [ReadOp(h, count)]);
    RunFirst(v, view', [ReadOp(h, count)], ReadOp(h, count), []);
  }

  lemma FirstRead(v: Volume, view: View, e: DirEntry, count: u32)
    requires v.Good() && LowestUnused(view, 0) < MAX_FILE_HANDLES && !e.IsDirectory() && e.size <= count
    requires e.size <= |v.Concatenated(v.Chain(e.firstCluster, v.clusters))|
    ensures var h, view' := LowestUnused(view, 0), Opened(v, view, e);
      h in view' && ReadOutput(view', h, count) == v.Concatenated(v.Chain(e.firstCluster, v.clusters))[..e.size]
  {
    v.ContentIsConcatenation(e);
    var content := v.Content(e);
    assert Stream(content, 0).Output(count) == content[0..|content|] == content;
  }

  // ----- the driver does what the abstract machine does

  /** Slot `h` is up to date and stands for the stream of `view`. */
  ghost predicate ShowsAt(d: Driver, view: View, h: int)
    requires d.v.Good() && |d.files| == MAX_FILE_HANDLES && h in view && 0 <= h < MAX_FILE_HANDLES
    reads d`v, d.files[h], d.files[h].buffer
  {
    d.files[h].Stands(d.v, view[h].content, view[h].position)
  }

  /** The driver stands for `view`. */
  ghost predicate Shows(d: Driver, view: View)
    reads d, d.Repr
  {
    && d.Valid() && d.OpenSet() == view.Keys && (d.v.rootSize > 0 ==> RootFresh(d))
    && forall h :: h in view ==> 0 <= h < MAX_FILE_HANDLES && ShowsAt(d, view, h)
  }

  /** After mounting nothing is open. */
  lemma MountedShows(d: Driver, bs: BootSector)
    requires d.JustMounted(bs)
    ensures Shows(d, map[])
  {
  }

  /** A read on behalf of a caller with a buffer of its own. */
  method ReadOwn(d: Driver, h: int, count: u32, ghost s: Stream) returns (out: seq<byte>)
    requires d.Valid() && h in d.OpenSet() && d.Synced(h) && d.part.disk.Reliable()
    requires s == Stream(d.Content(h), d.FileOf(h).position) && s.Valid()
    modifies d.FileOf(h)`position, d.FileOf(h)`size, d.FileOf(h)`currentCluster, d.FileOf(h)`currentSectorInCluster
    modifies d.FileOf(h).buffer, d`fatCachePosition, d`fatFault, d.fatCache, d.part.disk
    ensures out == s.Output(count)
    ensures d.Valid() && d.OpenSet() == old(d.OpenSet()) && d.Synced(h)
    ensures d.Content(h) == s.content && d.FileOf(h).position == s.After(count).position
  {
    var buffer := new byte[count](_ => 0);
    var n := d.Read(h, count, buffer, 0);
    ghost var got := buffer[..];
    DeliveredSlice(got, 0, n, s.content, s.position);
    out := buffer[..n];
    assert out == got[0..n];
  }

  /** No two slots share a buffer. */
  lemma BufferOwner(d: Driver, h: int)
    requires d.Layout() && 0 <= h < MAX_FILE_HANDLES
    ensures forall f :: f in d.files && f.buffer == d.files[h].buffer ==> f == d.files[h]
  {
    forall f | f in d.files && f.buffer == d.files[h].buffer
      ensures f == d.files[h]
    {
      var i :| 0 <= i < |d.files| && d.files[i] == f;
    }
  }

  /** A read keeps the streams of the other handles. */
  method ReadKeeping(d: Driver, h: int, count: u32, ghost view: View) returns (out: seq<byte>)
    requires Shows(d, view) && h in view && d.part.disk.Reliable()
    modifies d.FileOf(h)`position, d.FileOf(h)`size, d.FileOf(h)`currentCluster, d.FileOf(h)`currentSectorInCluster
    modifies d.FileOf(h).buffer, d`fatCachePosition, d`fatFault, d.fatCache, d.part.disk
    ensures out == view[h].Output(count) && d.Valid() && d.OpenSet() == view.Keys
    ensures d.v.rootSize > 0 ==> RootFresh(d)
    ensures d.FileOf(h).Stands(d.v, view[h].content, view[h].After(count).position)
    ensures forall k :: k in view && k != h ==> 0 <= k < MAX_FILE_HANDLES && ShowsAt(d, view, k)
  {
    assert ShowsAt(d, view, h);
    out := ReadOwn(d, h, count, view[h]);
    forall k | k in view && k != h
      ensures ShowsAt(d, view, k)
    {
      assert old(ShowsAt(d, view, k));
      BufferOwner(d, k);
    }
  }

  /** The view after a read. */
  lemma ReadShows(d: Driver, h: int, count: u32, view: View)
    requires d.Valid() && d.OpenSet() == view.Keys && h in view && 0 <= h < MAX_FILE_HANDLES
    requires d.v.rootSize > 0 ==> RootFresh(d)
    requires d.FileOf(h).Stands(d.v, view[h].content, view[h].After(count).position)
    requires forall k :: k in view && k != h ==> 0 <= k < MAX_FILE_HANDLES && ShowsAt(d, view, k)
    ensures Shows(d, AfterRead(view, h, count))
  {
    var view' := AfterRead(view, h, count);
    forall k | k in view'
      ensures 0 <= k < MAX_FILE_HANDLES && ShowsAt(d, view', k)
    {
      assert k != h ==> ShowsAt(d, view, k);
    }
  }

  /** Reading from a handle. */
  method ReadInto(d: Driver, h: int, count: u32, ghost view: View) returns (out: seq<byte>)
    requires Shows(d, view) && h in view && d.part.disk.Reliable()
    modifies d.FileOf(h)`position, d.FileOf(h)`size, d.FileOf(h)`currentCluster, d.FileOf(h)`currentSectorInCluster
    modifies d.FileOf(h).buffer, d`fatCachePosition, d`fatFault, d.fatCache, d.part.disk
    ensures out == ReadOutput(view, h, count) && Shows(d, AfterRead(view, h, count))
  {
    out := ReadKeeping(d, h, count, view);
    ReadShows(d, h, count, view);
  }

  /** The slot that the driver takes is the lowest one the abstract machine has not used. */
  lemma LowestAgree(view: View, r: FilePtr)
    requires forall h :: h in view ==> 0 <= h < MAX_FILE_HANDLES
    requires if r.File? then LowestFree(view.Keys, r.handle) else !HasFree(view.Keys)
    ensures r == Granted(view)
  {
    var h := LowestUnused(view, 0);
    if r.File? {
      assert h <= r.handle;
    }
  }

  /** The view after an entry was opened, or could not be. */
  lemma OpenShows(d: Driver, e: DirEntry, view: View, r: FilePtr)
    requires d.Valid() && view.Keys <= d.OpenSet()
    requires forall k :: k in view ==> 0 <= k < MAX_FILE_HANDLES && ShowsAt(d, view, k)
    requires r == Granted(view)
    requires d.v.rootSize > 0 ==> RootFresh(d)
    requires r.Null? ==> d.OpenSet() == view.Keys
    requires r.File? ==> d.OpenSet() == view.Keys + {r.handle} && AtStart(d, r.handle, d.v.Content(e))
    ensures Shows(d, Opened(d.v, view, e))
  {
    var view' := Opened(d.v, view, e);
    forall k | k in view'
      ensures ShowsAt(d, view', k)
    {
      if k in view && view'[k] == view[k] {
        assert ShowsAt(d, view, k);
      }
    }
  }

  /** Opening an entry keeps the streams of the open handles. */
  method OpenEntryKeeping(d: Driver, e: DirEntry, ghost view: View) returns (r: FilePtr)
    requires Shows(d, view) && d.part.disk.Reliable() && EntryOk(d.v, e)
    modifies (set f | f in d.files && !f.isOpen), (set f | f in d.files && !f.isOpen :: f.buffer), d.part.disk
    ensures OpenedNext(d, view.Keys, r, e) && (d.v.rootSize > 0 ==> RootFresh(d))
    ensures forall k :: k in view ==> 0 <= k < MAX_FILE_HANDLES && ShowsAt(d, view, k)
  {
    r := OpenNext(d, e, view.Keys);
    forall k | k in view
      ensures ShowsAt(d, view, k)
    {
      assert old(ShowsAt(d, view, k) && k in d.OpenSet());
      BufferOwner(d, k);
    }
  }

  /** Opening an entry. */
  method OpenInto(d: Driver, e: DirEntry, ghost view: View) returns (r: FilePtr)
    requires Shows(d, view) && d.part.disk.Reliable() && EntryOk(d.v, e)
    modifies (set f | f in d.files && !f.isOpen), (set f | f in d.files && !f.isOpen :: f.buffer), d.part.disk
    ensures Shows(d, Opened(d.v, view, e)) && r == Granted(view)
  {
    r := OpenEntryKeeping(d, e, view);
    LowestAgree(view, r);
    OpenShows(d, e, view, r);
  }

  method ReadFirst(d: Driver, h: int, e: DirEntry, count: u32, ghost view: View) returns (data: seq<byte>)
    requires d.v.Good() && Shows(d, Opened(d.v, view, e)) && d.part.disk.Reliable()
    requires h == LowestUnused(view, 0) < MAX_FILE_HANDLES && !e.IsDirectory() && e.size <= count
    requires e.size <= |d.v.Concatenated(d.v.Chain(e.firstCluster, d.v.clusters))|
    modifies d.FileOf(h)`position, d.FileOf(h)`size, d.FileOf(h)`currentCluster, d.FileOf(h)`currentSectorInCluster
    modifies d.FileOf(h).buffer, d`fatCachePosition, d`fatFault, d.fatCache, d.part.disk
    ensures data == d.v.Concatenated(d.v.Chain(e.firstCluster, d.v.clusters))[..e.size]
  {
    FirstRead(d.v, view, e, count);
    data := ReadInto(d, h, count, Opened(d.v, view, e));
  }

  /** On the driver: a read that asks for enough gives exactly the recorded number of bytes. */
  method OpenAndRead(d: Driver, e: DirEntry, count: u32, ghost view: View) returns (r: FilePtr, data: seq<byte>)
    requires Shows(d, view) && d.part.disk.Reliable() && EntryOk(d.v, e) && LowestUnused(view, 0) < MAX_FILE_HANDLES
    requires !e.IsDirectory() && e.size <= count && e.size <= |d.v.Concatenated(d.v.Chain(e.firstCluster, d.v.clusters))|
    modifies d`fatCachePosition, d`fatFault, d.Repr - {d}, d.part.disk
    ensures r == File(LowestUnused(view, 0))
    ensures |data| == e.size && data == d.v.Concatenated(d.v.Chain(e.firstCluster, d.v.clusters))[..e.size]
  {
    ghost var whole := d.v.Concatenated(d.v.Chain(e.firstCluster, d.v.clusters));
    r := OpenInto(d, e, view);
    data := ReadFirst(d, r.handle, e, count, view);
    assert data == whole[..e.size];
  }

  /** Paths on which `FAT_Open` does what it is for: the character after the last component does
      not matter, no null pointer is followed, and the root can be searched again afterwards. */
  ghost predicate PathSensible(v: Volume, open: set<int>, path: seq<byte>)
    requires v.Good()
  {
    var start := Stripped(path);
    && v.rootSize > 0 && start != [] && PathOk(v, v.RootBytes(), start)
    && (start[|start| - 1] == SLASH || TailHarmless(LastComponent(start)))
    && RootKept(v, ShortName(Head(start, 0))) && !FollowsNull(v, open, start, 0)
  }

  /** The character after the last component matters for nothing. */
  lemma TailIrrelevant(v: Volume, open: set<int>, start: seq<byte>, tail: byte)
    requires v.Good() && start != [] && (start[|start| - 1] == SLASH || TailHarmless(LastComponent(start)))
    ensures Resolve(v, v.RootBytes(), start, tail) == Resolve(v, v.RootBytes(), start, 0)
    ensures ShortName(Head(start, tail)) == ShortName(Head(start, 0))
    ensures FollowsNull(v, open, start, tail) <==> FollowsNull(v, open, start, 0)
  {
    ResolveIgnoresTail(v, v.RootBytes(), start, tail);
    HeadIgnoresTail(start, tail);
  }

  /** What `FAT_Open` then promises. */
  lemma PathOutcome(d: Driver, open: set<int>, path: seq<byte>, r: FilePtr, followedNull: bool, tail: byte)
    requires d.Valid() && PathSensible(d.v, open, path) && Outcome(d, open, Stripped(path), r, followedNull, tail)
    ensures !followedNull && RootFresh(d)
    ensures match Target(d.v, path)
      case Missing => r == Null && d.OpenSet() == open
      case Found(e) => if HasFree(open) then OpenedNext(d, open, r, e) else r == Null && d.OpenSet() == open
  {
    TailIrrelevant(d.v, open, Stripped(path), tail);
  }

  /** Opening by such a path. */
  method OpenSensible(d: Driver, path: seq<byte>, ghost open: set<int>) returns (r: FilePtr)
    requires RootFresh(d) && d.part.disk.Reliable() && d.OpenSet() == open && PathSensible(d.v, open, path)
    modifies d.root, d.root.buffer, d`fatCachePosition, d`fatFault, d.fatCache, d.part.disk
    modifies (set f | f in d.files && !f.isOpen), (set f | f in d.files && !f.isOpen :: f.buffer)
    ensures d.Valid() && RootFresh(d)
    ensures match Target(d.v, path)
      case Missing => r == Null && d.OpenSet() == open
      case Found(e) => if HasFree(open) then OpenedNext(d, open, r, e) else r == Null && d.OpenSet() == open
  {
    var followedNull;
    ghost var tail;
    r, followedNull, tail := Open(d, path);
    PathOutcome(d, open, path, r, followedNull, tail);
  }

  /** Opening by path keeps the streams of the open handles. */
  method OpenKeeping(d: Driver, path: seq<byte>, ghost view: View) returns (r: FilePtr)
    requires Shows(d, view) && d.part.disk.Reliable() && PathSensible(d.v, view.Keys, path)
    modifies d.root, d.root.buffer, d`fatCachePosition, d`fatFault, d.fatCache, d.part.disk
    modifies (set f | f in d.files && !f.isOpen), (set f | f in d.files && !f.isOpen :: f.buffer)
    ensures d.Valid() && RootFresh(d) && forall k :: k in view ==> 0 <= k < MAX_FILE_HANDLES && ShowsAt(d, view, k)
    ensures match Target(d.v, path)
      case Missing => r == Null && d.OpenSet() == view.Keys
      case Found(e) =>
        if HasFree(view.Keys) then OpenedNext(d, view.Keys, r, e) else r == Null && d.OpenSet() == view.Keys
  {
    r := OpenSensible(d, path, view.Keys);
    forall k | k in view
      ensures ShowsAt(d, view, k)
    {
      assert old(ShowsAt(d, view, k) && k in d.OpenSet());
      BufferOwner(d, k);
    }
  }

  /** The view after a path was opened, or could not be. */
  lemma PathShows(d: Driver, path: seq<byte>, view: View, r: FilePtr)
    requires d.Valid() && RootFresh(d) && Stripped(path) != []
    requires forall k :: k in view ==> 0 <= k < MAX_FILE_HANDLES && ShowsAt(d, view, k)
    requires match Target(d.v, path)
      case Missing => r == Null && d.OpenSet() == view.Keys
      case Found(e) =>
        if HasFree(view.Keys) then OpenedNext(d, view.Keys, r, e) else r == Null && d.OpenSet() == view.Keys
    ensures Shows(d, PathOpened(d.v, view, path)) && r == PathGranted(d.v, view, path)
  {
    match Target(d.v, path)
    case Missing =>
    case Found(e) =>
      LowestAgree(view, r);
      OpenShows(d, e, view, r);
  }

  /** Opening by path. */
  method PathInto(d: Driver, path: seq<byte>, ghost view: View) returns (r: FilePtr)
    requires Shows(d, view) && d.part.disk.Reliable() && PathSensible(d.v, view.Keys, path)
    modifies d.root, d.root.buffer, d`fatCachePosition, d`fatFault, d.fatCache, d.part.disk
    modifies (set f | f in d.files && !f.isOpen), (set f | f in d.files && !f.isOpen :: f.buffer)
    ensures Shows(d, PathOpened(d.v, view, path)) && r == PathGranted(d.v, view, path)
  {
    r := OpenKeeping(d, path, view);
    PathShows(d, path, view, r);
  }

  /** Closing a handle keeps the streams of the others. */
  method CloseKeeping(d: Driver, h: int, ghost view: View)
    requires Shows(d, view) && h in view
    modifies d.FileOf(h)`position, d.FileOf(h)`currentCluster, d.FileOf(h)`isOpen
    ensures d.Valid() && d.OpenSet() == view.Keys - {h} && (d.v.rootSize > 0 ==> RootFresh(d))
    ensures forall k :: k in view && k != h ==> 0 <= k < MAX_FILE_HANDLES && ShowsAt(d, view, k)
  {
    d.Close(h);
    forall k | k in view && k != h
      ensures ShowsAt(d, view, k)
    {
      assert old(ShowsAt(d, view, k));
    }
  }

  /** Closing a handle. */
  method CloseInto(d: Driver, h: int, ghost view: View)
    requires Shows(d, view) && h in view
    modifies d.FileOf(h)`position, d.FileOf(h)`currentCluster, d.FileOf(h)`isOpen
    ensures Shows(d, view - {h})
  {
    CloseKeeping(d, h, view);
    ghost var view' := view - {h};
    forall k | k in view'
      ensures ShowsAt(d, view', k)
    {
      assert ShowsAt(d, view, k);
    }
  }

  /** Operations on entries and paths that can be read. */
  ghost predicate Sensible(v: Volume, view: View, op: Operation)
    requires v.Good()
  {
    match op
    case OpenOp(e) => EntryOk(v, e)
    case PathOp(path) => PathSensible(v, view.Keys, path)
    case ReadOp(_, _) => true
    case CloseOp(_) => true
  }

  ghost predicate AllSensible(v: Volume, view: View, ops: seq<Operation>)
    requires v.Good()
    decreases |ops|
  {
    ops == [] || (Sensible(v, view, ops[0]) && AllSensible(v, Next(v, view, ops[0]), ops[1..]))
  }

  method ReadAny(d: Driver, h: int, count: u32, ghost view: View) returns (out: seq<byte>)
    requires Shows(d, view) && d.part.disk.Reliable()
    modifies d`fatCachePosition, d`fatFault, d.Repr - {d}, d.part.disk
    ensures Shows(d, AfterRead(view, h, count)) && out == ReadOutput(view, h, count)
  {
    out := [];
    if 0 <= h < MAX_FILE_HANDLES && d.files[h].isOpen {
      out := ReadInto(d, h, count, view);
    }
  }

  method CloseAny(d: Driver, h: int, ghost view: View)
    requires Shows(d, view)
    modifies d.Repr - {d}
    ensures Shows(d, view - {h})
  {
    if 0 <= h < MAX_FILE_HANDLES && d.files[h].isOpen {
      CloseInto(d, h, view);
    } else {
      assert view - {h} == view;
    }
  }

  /** One operation of a client; reads and closes of handles that are not open do nothing. */
  method Perform(d: Driver, op: Operation, ghost view: View) returns (out: Answer)
    requires Shows(d, view) && d.part.disk.Reliable() && Sensible(d.v, view, op)
    modifies d`fatCachePosition, d`fatFault, d.Repr - {d}, d.part.disk
    ensures Shows(d, Next(d.v, view, op)) && out == Output(d.v, view, op)
  {
    match op
    case OpenOp(e) =>
      var r := OpenInto(d, e, view);
      out := Handle(r);
    case PathOp(path) =>
      var r := PathInto(d, path, view);
      out := Handle(r);
    case ReadOp(h, count) =>
      var bytes := ReadAny(d, h, count, view);
      out := Data(bytes);
    case CloseOp(h) =>
      CloseAny(d, h, view);
      out := Nothing;
  }

  /** `outs` so far, from the view `now` on, leads to `goal` and the view `end`, and what is left
      is sensible. */
  ghost predicate OnTrack(v: Volume, now: View, ops: seq<Operation>, i: nat, outs: seq<Answer>, goal: seq<Answer>, end: View) {
    && v.Good() && i <= |ops| && AllSensible(v, now, ops[i..])
    && outs + Run(v, now, ops[i..]) == goal && Final(v, now, ops[i..]) == end
  }

  lemma RunStep(v: Volume, now: View, ops: seq<Operation>, i: nat, outs: seq<Answer>, goal: seq<Answer>, end: View)
    requires i < |ops| && OnTrack(v, now, ops, i, outs, goal, end)
    ensures Sensible(v, now, ops[i])
    ensures OnTrack(v, Next(v, now, ops[i]), ops, i + 1, outs + [Output(v, now, ops[i])], goal, end)
  {
    assert ops[i..][0] == ops[i] && ops[i..][1..] == ops[i + 1..];
    var rest := Run(v, Next(v, now, ops[i]), ops[i + 1..]);
    assert outs + ([Output(v, now, ops[i])] + rest) == outs + [Output(v, now, ops[i])] + rest;
  }

  lemma RunDone(v: Volume, now: View, ops: seq<Operation>, outs: seq<Answer>, goal: seq<Answer>, end: View)
    requires OnTrack(v, now, ops, |ops|, outs, goal, end)
    ensures outs == goal && now == end
  {
  }

  /** Any program of opens, reads and closes: the driver gives the answers of the abstract machine,
      and stands for its final view. */
  method Execute(d: Driver, ops: seq<Operation>, ghost view: View) returns (outs: seq<Answer>)
    requires Shows(d, view) && d.part.disk.Reliable() && AllSensible(d.v, view, ops)
    modifies d`fatCachePosition, d`fatFault, d.Repr - {d}, d.part.disk
    ensures outs == Run(d.v, view, ops) && Shows(d, Final(d.v, view, ops))
  {
    outs := [];
    var i := 0;
    ghost var now, goal, end := view, Run(d.v, view, ops), Final(d.v, view, ops);
    assert ops[0..] == ops;
    while i < |ops|
      invariant 0 <= i <= |ops| && Shows(d, now) && OnTrack(d.v, now, ops, i, outs, goal, end)
    {
      RunStep(d.v, now, ops, i, outs, goal, end);
      var out := Perform(d, ops[i], now);
      outs := outs + [out];
      now := Next(d.v, now, ops[i]);
      i := i + 1;
    }
    RunDone(d.v, now, ops, outs, goal, end);
  }
}
