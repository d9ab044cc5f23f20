/** Whole files, from opening them by path to closing them again, on top of the driver. */
module FileAccess {
  import opened Bytes
  import opened Characters
  import opened FatDriver
  import opened PathLookup
  import opened ShortNames
  import opened Volumes

  /** An open slot of the driver at offset `p` of `file`. */
  ghost predicate Reading(d: Driver, h: int, file: seq<byte>, p: nat)
    reads d, d.Repr
  {
    RootFresh(d) && d.IsOpen(h) && h != ROOT_DIRECTORY_HANDLE && d.FileOf(h).Stands(d.v, file, p)
  }

  /** A successful or short read of a file into memory. */
  method Fetch(d: Driver, h: int, count: u32, mem: array<byte>, at: nat, ghost file: seq<byte>, ghost p: nat)
    returns (n: nat, ghost piece: seq<byte>, ghost p': nat)
    requires Reading(d, h, file, p) && d.part.disk.Reliable()
    requires at + count <= mem.Length && mem !in d.Repr
    modifies d.FileOf(h)`position, d.FileOf(h)`size, d.FileOf(h)`currentCluster, d.FileOf(h)`currentSectorInCluster
    modifies d.FileOf(h).buffer, d`fatCachePosition, d`fatFault, d.fatCache, d.part.disk, mem
    ensures p <= p' <= |file| && p' == p + n && n == Min(count, |file| - p) && |piece| == n
    ensures Reading(d, h, file, p') && piece == file[p..p'] && mem[..] == Patch(old(mem[..]), at, piece)
    ensures d.part.disk.failures == old(d.part.disk.failures) && d.OpenSet() == old(d.OpenSet())
  {
    ghost var before := mem[..];
    n := d.Read(h, count, mem, at);
    p' := p + n;
    piece := file[p..p'];
    DeliveredSlice(mem[..], at, n, file, p);
    PatchIs(before, mem[..], at, piece);
  }

  lemma PatchIs(before: seq<byte>, after: seq<byte>, at: nat, data: seq<byte>)
    requires at + |data| <= |before| && SameOutside(before, after, at, at + |data|)
    requires after[at..at + |data|] == data
    ensures after == Patch(before, at, data)
  {
    forall a | 0 <= a < |after|
      ensures after[a] == Patch(before, at, data)[a]
    {
      if at <= a < at + |data| {
        assert after[a] == after[at..at + |data|][a - at];
      }
    }
  }

  /** Whatever is on the stack, `path` leads to `e`, and the search for its first component leaves
      the root fit for another search. */
  ghost predicate LeadsTo(v: Volume, path: seq<byte>, e: DirEntry) {
    && v.Good() && Stripped(path) != [] && PathOk(v, v.RootBytes(), Stripped(path))
    && forall tail: byte ::
         Resolve(v, v.RootBytes(), Stripped(path), tail) == Found(e) && RootKept(v, ShortName(Head(Stripped(path), tail)))
  }

  /** For that it is enough that the last component is of a harmless shape. */
  lemma HarmlessLeads(v: Volume, path: seq<byte>, e: DirEntry)
    requires v.Good() && Stripped(path) != [] && PathOk(v, v.RootBytes(), Stripped(path))
    requires var p := Stripped(path); p[|p| - 1] == SLASH || TailHarmless(LastComponent(p))
    requires Resolve(v, v.RootBytes(), Stripped(path), 0) == Found(e) && RootKept(v, ShortName(Head(Stripped(path), 0)))
    ensures LeadsTo(v, path, e)
  {
    var p := Stripped(path);
    forall tail: byte
      ensures Resolve(v, v.RootBytes(), p, tail) == Found(e) && RootKept(v, ShortName(Head(p, tail)))
    {
      ResolveIgnoresTail(v, v.RootBytes(), p, tail);
      HeadIgnoresTail(p, tail);
    }
  }

  /** The state in which the file may be opened. */
  ghost predicate Ready(d: Driver, path: seq<byte>, e: DirEntry, open: set<int>)
    reads d, d.Repr
  {
    RootFresh(d) && LeadsTo(d.v, path, e) && d.OpenSet() == open && HasFree(open)
  }

  /** Opening the file. */
  method OpenFile(d: Driver, path: seq<byte>, ghost e: DirEntry, ghost open: set<int>) returns (h: int)
    requires Ready(d, path, e, open) && d.part.disk.Reliable()
    modifies d.root, d.root.buffer, d`fatCachePosition, d`fatFault, d.fatCache, d.part.disk
    modifies (set f | f in d.files && !f.isOpen), (set f | f in d.files && !f.isOpen :: f.buffer)
    ensures LowestFree(open, h) && Reading(d, h, d.v.Content(e), 0)
    ensures d.OpenSet() == open + {h} && d.part.disk.failures == old(d.part.disk.failures)
  {
    var fd, followedNull;
    ghost var tail;
    fd, followedNull, tail := Open(d, path);
    assert Resolve(d.v, d.v.RootBytes(), Stripped(path), tail) == Found(e);
    h := fd.handle;
  }

  /** Closing it again. */
  method CloseFile(d: Driver, path: seq<byte>, h: int, ghost e: DirEntry, ghost open: set<int>)
    requires RootFresh(d) && LeadsTo(d.v, path, e)
    requires LowestFree(open, h) && d.OpenSet() == open + {h} && d.IsOpen(h)
    modifies d.FileOf(h)`position, d.FileOf(h)`currentCluster, d.FileOf(h)`isOpen
    ensures Ready(d, path, e, open)
  {
    d.Close(h);
    assert open + {h} - {h} == open;
  }
}
