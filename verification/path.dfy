/** Directory search and path lookup on top of the driver. */
module PathLookup {
  import opened Bytes
  import opened Characters
  import opened FatDriver
  import opened OnDisk
  import opened Options
  import opened ShortNames
  import opened Volumes

  const MAX_PATH_SIZE := 256
  const FAT_ATTRIBUTE_DIRECTORY: bv8 := 0x10

  // ----- the specification

  /** Offset of the first directory slot from `from` on whose name is `short`. */
  function FirstMatch(content: seq<byte>, from: nat, short: seq<byte>): (r: Option<nat>)
    ensures r.Some? ==> from <= r.value && r.value + DIRECTORY_ENTRY_SIZE <= |content|
    decreases |content| - from
  {
    if from + DIRECTORY_ENTRY_SIZE > |content| then None
    else if content[from..from + 11] == short then Some(from)
    else FirstMatch(content, from + DIRECTORY_ENTRY_SIZE, short)
  }

  /** Where a search from the start of a directory leaves the cursor: behind the match, or at the
      end of the directory. */
  function ScanEnd(content: seq<byte>, short: seq<byte>): (q: nat)
    ensures q <= |content|
  {
    match FirstMatch(content, 0, short)
    case None => |content|
    case Some(p) => p + DIRECTORY_ENTRY_SIZE
  }

  predicate SlotMatches(content: seq<byte>, k: nat, short: seq<byte>) {
    32 * k + 32 <= |content| && content[32 * k..32 * k + 11] == short
  }

  /** The first match is what its name says. */
  lemma {:induction false} FirstMatchExact(content: seq<byte>, from: nat, short: seq<byte>)
    ensures match FirstMatch(content, 32 * from, short)
      case None => (forall k :: k >= from ==> !SlotMatches(content, k, short))
      case Some(p) => (p % 32 == 0 && SlotMatches(content, p / 32, short) &&
                       forall k :: from <= k < p / 32 ==> !SlotMatches(content, k, short))
    decreases |content| - 32 * from
  {
    if 32 * from + 32 > |content| || content[32 * from..32 * from + 11] == short {
    } else {
      FirstMatchExact(content, from + 1, short);
      assert !SlotMatches(content, from, short);
    }
  }

  function EntryAt(content: seq<byte>, p: nat): DirEntry
    requires p + DIRECTORY_ENTRY_SIZE <= |content|
  {
    ParseEntry(content[p..p + DIRECTORY_ENTRY_SIZE])
  }

  /** The last component as the code sees it: its terminator is written one place too far, so
      that whatever was on the stack there becomes part of the name. */
  function Tailed(component: seq<byte>, tail: byte): seq<byte> {
    if tail == 0 then component else component + [tail]
  }

  datatype Resolution = Missing | Found(entry: DirEntry)

  /** The component that `path` starts with, and what is left after it. */
  function Head(path: seq<byte>, tail: byte): seq<byte> {
    var i := IndexOf(path, SLASH);
    if i < |path| then path[..i] else Tailed(path, tail)
  }

  function Rest(path: seq<byte>): (r: seq<byte>)
    requires path != []
    ensures |r| < |path|
  {
    var i := IndexOf(path, SLASH);
    if i < |path| then path[i + 1..] else []
  }

  /** One component after the other, each by first match in what the previous one contains. */
  function Resolve(v: Volume, dir: seq<byte>, path: seq<byte>, tail: byte): Resolution
    requires v.Good() && path != []
    decreases |path|
  {
    match FirstMatch(dir, 0, ShortName(Head(path, tail)))
    case None => Missing
    case Some(p) =>
      var e := EntryAt(dir, p);
      if Rest(path) == [] then Found(e) else Resolve(v, v.Content(e), Rest(path), tail)
  }

  // ----- directories as they are written

  /** Slot `k` of a directory is the first one with its name. */
  ghost predicate Listed(dir: seq<byte>, k: nat, s: Slot) {
    && s.Valid() && 32 * k + 32 <= |dir| && dir[32 * k..32 * k + 32] == s.Bytes()
    && forall j: nat :: j < k ==> !SlotMatches(dir, j, s.name)
  }

  lemma ListedIsFirst(dir: seq<byte>, k: nat, s: Slot)
    requires Listed(dir, k, s)
    ensures FirstMatch(dir, 0, s.name) == Some(32 * k)
    ensures EntryAt(dir, 32 * k) == DirEntry(s.name, s.attributes, s.cluster, s.size)
  {
    var slot := dir[32 * k..32 * k + 32];
    SlotRoundTrip(s);
    assert slot[..11] == dir[32 * k..32 * k + 11] && slot[..11] == s.name;
    assert SlotMatches(dir, k, s.name);
    FirstMatchExact(dir, 0, s.name);
  }

  /** The last component is found where its slot is. */
  lemma LastListed(v: Volume, dir: seq<byte>, component: seq<byte>, k: nat, s: Slot)
    requires v.Good() && component != [] && 47 !in component
    requires Listed(dir, k, s) && s.name == ShortName(component)
    ensures Resolve(v, dir, component, 0) == Found(DirEntry(s.name, s.attributes, s.cluster, s.size))
  {
    ListedIsFirst(dir, k, s);
    IndexOfUnique(component, SLASH, |component|);
  }

  /** A component with a slash behind it leads into the clusters of a directory: attribute bit 4
      is set, and a size of 0 says that they belong to it to the last one. */
  lemma DirectoryListed(v: Volume, dir: seq<byte>, component: seq<byte>, rest: seq<byte>, tail: byte, k: nat, s: Slot)
    requires v.Good() && 47 !in component && rest != []
    requires Listed(dir, k, s) && s.name == ShortName(component) && (s.attributes as bv8) & 0x10 != 0 && s.size == 0
    ensures Resolve(v, dir, component + [47] + rest, tail)
      == Resolve(v, v.Concatenated(v.Chain(s.cluster, v.clusters)), rest, tail)
  {
    var path, e := component + [47] + rest, DirEntry(s.name, s.attributes, s.cluster, s.size);
    ListedIsFirst(dir, k, s);
    IndexOfUnique(path, SLASH, |component|);
    assert path[..|component|] == component && path[|component| + 1..] == rest;
    DirectoryBit(e);
    v.ContentIsConcatenation(e);
  }

  /** Two components: the file is the first slot with its name in the clusters of the directory. */
  lemma FileInDirectory(v: Volume, dir: seq<byte>, a: seq<byte>, b: seq<byte>, k: nat, s: Slot)
    requires v.Good() && 47 !in a && 47 !in b && b != []
    requires Listed(dir, k, s) && s.name == ShortName(a) && (s.attributes as bv8) & 0x10 != 0 && s.size == 0
    ensures var inside := v.Concatenated(v.Chain(s.cluster, v.clusters));
      Resolve(v, dir, a + [47] + b, 0) ==
        match FirstMatch(inside, 0, ShortName(b))
        case None => Missing
        case Some(p) => Found(EntryAt(inside, p))
  {
    DirectoryListed(v, dir, a, b, 0, k, s);
    IndexOfUnique(b, SLASH, |b|);
  }

  // ----- what the test for directories is there for

  /** Where a path should lead: a component with a slash behind it has to be a directory. */
  function Intended(v: Volume, dir: seq<byte>, path: seq<byte>, tail: byte): Resolution
    requires v.Good() && path != []
    decreases |path|
  {
    match FirstMatch(dir, 0, ShortName(Head(path, tail)))
    case None => Missing
    case Some(p) =>
      var e := EntryAt(dir, p);
      if IndexOf(path, SLASH) < |path| && !e.IsDirectory() then Missing
      else if Rest(path) == [] then Found(e) else Intended(v, v.Content(e), Rest(path), tail)
  }

  datatype Crossing = Crossing(entry: DirEntry, rest: seq<byte>)

  /** The first component with a slash behind it that is not a directory, and the path after it. */
  function FirstFile(v: Volume, dir: seq<byte>, path: seq<byte>, tail: byte): Option<Crossing>
    requires v.Good() && path != []
    decreases |path|
  {
    match FirstMatch(dir, 0, ShortName(Head(path, tail)))
    case None => None
    case Some(p) =>
      var e := EntryAt(dir, p);
      if IndexOf(path, SLASH) == |path| then None
      else if !e.IsDirectory() then Some(Crossing(e, Rest(path)))
      else if Rest(path) == [] then None else FirstFile(v, v.Content(e), Rest(path), tail)
  }

  /** The test of `FAT_Open`, which reads `attributes & (FAT_ATTRIBUTE_DIRECTORY == 0)`. */
  predicate Refuses(isLast: bool, e: DirEntry) {
    !isLast && (e.attributes as bv8) & (if FAT_ATTRIBUTE_DIRECTORY == 0 then 1 else 0) != 0
  }

  /** Paths lead where they should unless they use a file as a directory. Those are refused if and
      only if something is left of the path and is not found in the bytes of the file. */
  lemma {:induction false} FilesAsDirectories(v: Volume, dir: seq<byte>, path: seq<byte>, tail: byte)
    requires v.Good() && path != []
    ensures match FirstFile(v, dir, path, tail)
      case None => Resolve(v, dir, path, tail) == Intended(v, dir, path, tail)
      case Some(x) =>
        && Intended(v, dir, path, tail) == Missing
        && (Resolve(v, dir, path, tail) == Missing <==>
              x.rest != [] && Resolve(v, v.Content(x.entry), x.rest, tail) == Missing)
    decreases |path|
  {
    match FirstMatch(dir, 0, ShortName(Head(path, tail)))
    case None =>
    case Some(p) =>
      var e := EntryAt(dir, p);
      if Rest(path) != [] && e.IsDirectory() {
        FilesAsDirectories(v, v.Content(e), Rest(path), tail);
      }
  }

  /** A failing input: A is a file of the root that begins like the directory entry of B, and A/B
      is found in it. */
  lemma FileSearched(v: Volume, p: nat)
    requires v.Good() && FirstMatch(v.RootBytes(), 0, ShortName([65])) == Some(p)
    requires var a := EntryAt(v.RootBytes(), p);
      !a.IsDirectory() && |v.Content(a)| >= 32 && v.Content(a)[..11] == ShortName([66])
    ensures Intended(v, v.RootBytes(), [65, SLASH, 66], 0) == Missing
    ensures Resolve(v, v.RootBytes(), [65, SLASH, 66], 0) == Found(EntryAt(v.Content(EntryAt(v.RootBytes(), p)), 0))
  {
    var path: seq<byte> := [65, SLASH, 66];
    IndexOfUnique(path, SLASH, 1);
    assert path[..1] == [65] && path[2..] == [66];
    var inside := v.Content(EntryAt(v.RootBytes(), p));
    assert inside[0..0 + 11] == inside[..11];
    assert Head([66], 0) == [66];
  }

  ghost predicate EntryOk(v: Volume, e: DirEntry)
    requires v.Good()
  {
    v.Readable(e) && v.ClusterToLba(e.firstCluster) < |v.img|
  }

  /** Every component fits the name buffer, and every entry met on the way can be read. */
  ghost predicate PathOk(v: Volume, dir: seq<byte>, path: seq<byte>)
    requires v.Good() && path != []
    decreases |path|
  {
    && IndexOf(path, SLASH) + 1 < MAX_PATH_SIZE && 0 !in path
    && (forall tail: byte :: StepOk(v, dir, path, tail))
    && (Rest(path) != [] ==>
          match FirstMatch(dir, 0, ShortName(Head(path, 0)))
          case None => true
          case Some(p) => PathOk(v, v.Content(EntryAt(dir, p)), Rest(path)))
  }

  ghost predicate StepOk(v: Volume, dir: seq<byte>, path: seq<byte>, tail: byte)
    requires v.Good() && path != []
  {
    match FirstMatch(dir, 0, ShortName(Head(path, tail)))
    case None => true
    case Some(p) => EntryOk(v, EntryAt(dir, p))
  }

  /** If the last component is of a harmless shape, the stray character does not matter. */
  lemma {:induction false} ResolveIgnoresTail(v: Volume, dir: seq<byte>, path: seq<byte>, tail: byte)
    requires v.Good() && path != [] && (path[|path| - 1] == SLASH || TailHarmless(LastComponent(path)))
    ensures Resolve(v, dir, path, tail) == Resolve(v, dir, path, 0)
    decreases |path|
  {
    var i := IndexOf(path, SLASH);
    if i == |path| {
      TailIgnored(path, tail);
    } else if Rest(path) != [] {
      match FirstMatch(dir, 0, ShortName(Head(path, tail)))
      case None =>
      case Some(p) => ResolveIgnoresTail(v, v.Content(EntryAt(dir, p)), Rest(path), tail);
    }
  }

  /** The same for its first component. */
  lemma HeadIgnoresTail(path: seq<byte>, tail: byte)
    requires path != [] && (path[|path| - 1] == SLASH || TailHarmless(LastComponent(path)))
    ensures ShortName(Head(path, tail)) == ShortName(Head(path, 0))
  {
    if IndexOf(path, SLASH) == |path| {
      TailIgnored(path, tail);
    }
  }

  function LastComponent(path: seq<byte>): seq<byte>
    requires path != [] && path[|path| - 1] != SLASH
    decreases |path|
  {
    var i := IndexOf(path, SLASH);
    if i == |path| then path else LastComponent(path[i + 1..])
  }

  // ----- the code

  /** `FAT_ReadEntry`. */
  method ReadEntry(d: Driver, h: int, dirEntry: array<byte>) returns (ok: bool)
    requires d.Valid() && d.IsOpen(h) && d.Synced(h) && d.part.disk.Reliable()
    requires dirEntry !in d.Repr && dirEntry.Length == DIRECTORY_ENTRY_SIZE
    modifies d.FileOf(h)`position, d.FileOf(h)`size, d.FileOf(h)`currentCluster, d.FileOf(h)`currentSectorInCluster
    modifies d.FileOf(h).buffer, d`fatCachePosition, d`fatFault, d.fatCache, d.part.disk, dirEntry
    ensures d.Valid() && d.IsOpen(h) && d.Synced(h) && d.Content(h) == old(d.Content(h))
    ensures d.part.disk.failures == old(d.part.disk.failures)
    ensures ok <==> old(d.FileOf(h).position) + DIRECTORY_ENTRY_SIZE <= |old(d.Content(h))|
    ensures !ok ==> d.FileOf(h).position == |old(d.Content(h))|
    ensures ok ==>
      && d.FileOf(h).position == old(d.FileOf(h).position) + DIRECTORY_ENTRY_SIZE
      && dirEntry[..] == old(d.Content(h))[old(d.FileOf(h).position)..old(d.FileOf(h).position) + DIRECTORY_ENTRY_SIZE]
  {
    ghost var content, p := d.Content(h), d.FileOf(h).position;
    var n := d.Read(h, DIRECTORY_ENTRY_SIZE, dirEntry, 0);
    ok := n == DIRECTORY_ENTRY_SIZE;
    if ok {
      DeliveredSlice(dirEntry[..], 0, n, content, p);
    }
  }

  /** One pass of the search loop, from offset `p`. */
  method TryEntry(d: Driver, h: int, shortName: array<byte>, entry: array<byte>, ghost content: seq<byte>, ghost p: nat,
                  ghost short: seq<byte>)
    returns (ok: bool, hit: bool, ghost next: nat)
    requires d.Valid() && d.IsOpen(h) && d.Synced(h) && d.part.disk.Reliable()
    requires d.Content(h) == content && d.FileOf(h).position == p
    requires shortName.Length == 12 && entry.Length == DIRECTORY_ENTRY_SIZE && short == shortName[..11]
    requires entry !in d.Repr && shortName !in d.Repr && entry != shortName
    modifies d.FileOf(h)`position, d.FileOf(h)`size, d.FileOf(h)`currentCluster, d.FileOf(h)`currentSectorInCluster
    modifies d.FileOf(h).buffer, d`fatCachePosition, d`fatFault, d.fatCache, d.part.disk, entry
    ensures d.Valid() && d.IsOpen(h) && d.Synced(h)
    ensures d.Content(h) == content && d.FileOf(h).position == next <= |content|
    ensures d.part.disk.failures == old(d.part.disk.failures)
    ensures !ok ==> FirstMatch(content, p, short) == None && next == |content|
    ensures ok ==> next == p + DIRECTORY_ENTRY_SIZE
    ensures ok && hit ==> FirstMatch(content, p, short) == Some(p) && entry[..] == content[p..next]
    ensures ok && !hit ==> FirstMatch(content, next, short) == FirstMatch(content, p, short)
  {
    ok := ReadEntry(d, h, entry);
    hit := shortName[..11] == entry[..11];
    next := d.FileOf(h).position;
    assert ok ==> entry[..11] == content[p..p + 11];
  }

  /** The search loop. */
  method Scan(d: Driver, h: int, shortName: array<byte>, entry: array<byte>, ghost content: seq<byte>) returns (found: bool)
    requires d.Valid() && d.IsOpen(h) && d.Synced(h) && d.part.disk.Reliable() && d.Content(h) == content
    requires shortName.Length == 12 && entry.Length == DIRECTORY_ENTRY_SIZE
    requires entry !in d.Repr && shortName !in d.Repr && entry != shortName
    modifies d.FileOf(h)`position, d.FileOf(h)`size, d.FileOf(h)`currentCluster, d.FileOf(h)`currentSectorInCluster
    modifies d.FileOf(h).buffer, d`fatCachePosition, d`fatFault, d.fatCache, d.part.disk, entry
    ensures d.Valid() && d.IsOpen(h) && d.Synced(h) && d.Content(h) == content
    ensures d.part.disk.failures == old(d.part.disk.failures)
    ensures match FirstMatch(content, old(d.FileOf(h).position), shortName[..11])
      case None => !found && d.FileOf(h).position == |content|
      case Some(p) => (found && entry[..] == content[p..p + DIRECTORY_ENTRY_SIZE] &&
                       d.FileOf(h).position == p + DIRECTORY_ENTRY_SIZE)
  {
    ghost var p, short := d.FileOf(h).position, shortName[..11];
    ghost var target := FirstMatch(content, p, short);
    while true
      invariant d.Valid() && d.IsOpen(h) && d.Synced(h)
      invariant d.Content(h) == content && d.FileOf(h).position == p <= |content|
      invariant d.part.disk.failures == old(d.part.disk.failures)
      invariant FirstMatch(content, p, short) == target
      decreases |content| - p
    {
      var ok, hit;
      ok, hit, p := TryEntry(d, h, shortName, entry, content, p, short);
      if !ok {
        return false;
      }
      if hit {
        return true;
      }
    }
  }

  /** `FAT_FindFile`: the first entry, from Position on, with the given name. */
  method FindFile(d: Driver, h: int, name: array<byte>) returns (found: bool, e: DirEntry)
    requires d.Valid() && d.IsOpen(h) && d.Synced(h) && d.part.disk.Reliable()
    requires 0 in name[..] && name !in d.Repr
    modifies d.FileOf(h)`position, d.FileOf(h)`size, d.FileOf(h)`currentCluster, d.FileOf(h)`currentSectorInCluster
    modifies d.FileOf(h).buffer, d`fatCachePosition, d`fatFault, d.fatCache, d.part.disk
    ensures d.Valid() && d.IsOpen(h) && d.Synced(h) && d.Content(h) == old(d.Content(h))
    ensures d.part.disk.failures == old(d.part.disk.failures)
    ensures match FirstMatch(old(d.Content(h)), old(d.FileOf(h).position), ShortName(CString(name[..])))
      case None => !found && d.FileOf(h).position == |old(d.Content(h))|
      case Some(p) => (found && e == EntryAt(old(d.Content(h)), p) &&
                       d.FileOf(h).position == p + DIRECTORY_ENTRY_SIZE)
  {
    ghost var content, text := d.Content(h), name[..];
    ghost var short := ShortName(CString(text));
    var shortName := new byte[12](_ => 0);
    GetShortName(name, shortName);
    var entry := new byte[DIRECTORY_ENTRY_SIZE](_ => 0);
    assert shortName[..11] == short;
    found := Scan(d, h, shortName, entry, content);
    assert name[..] == text && shortName[..11] == short;
    e := ParseEntry(entry[..]);
  }

  /** The `memcpy` of a component into the name buffer. */
  method CopyName(name: array<byte>, path: seq<byte>, len: nat)
    requires len <= |path| && len <= name.Length
    modifies name
    ensures name[..len] == path[..len]
    ensures forall k :: len <= k < name.Length ==> name[k] == old(name[k])
  {
    var i := 0;
    while i < len
      invariant 0 <= i <= len && name[..i] == path[..i]
      invariant forall k :: len <= k < name.Length ==> name[k] == old(name[k])
    {
      name[i] := path[i];
      i := i + 1;
    }
  }

  lemma CStringIs(buffer: seq<byte>, k: nat)
    requires k < |buffer| && buffer[k] == 0 && 0 !in buffer[..k]
    ensures 0 in buffer && CString(buffer) == buffer[..k]
  {
    IndexOfUnique(buffer, 0, k);
  }

  /** The part of the loop of `FAT_Open` that splits off a component. The terminator of the last
      one goes to `len + 1`; `tail` is what happens to be in between. */
  method SplitPath(name: array<byte>, path: seq<byte>) returns (rest: seq<byte>, isLast: bool, ghost tail: byte)
    requires path != [] && name.Length == MAX_PATH_SIZE && IndexOf(path, SLASH) + 1 < MAX_PATH_SIZE && 0 !in path
    modifies name
    ensures rest == Rest(path) && 0 in name[..] && CString(name[..]) == Head(path, tail)
    ensures isLast <==> SLASH !in path
  {
    var i := IndexOf(path, SLASH);
    CopyName(name, path, i);
    tail := name[i];
    isLast := i == |path|;
    if i < |path| {
      name[i] := 0;
      rest := path[i + 1..];
      assert name[..][..i] == path[..i];
      CStringIs(name[..], i);
    } else {
      name[i + 1] := 0;
      rest := [];
      if tail == 0 {
        assert name[..][..i] == path;
        CStringIs(name[..], i);
      } else {
        assert name[..][..i + 1] == path + [tail];
        CStringIs(name[..], i + 1);
      }
    }
  }

  /** The lowest slot outside a set of open ones. */
  ghost predicate LowestFree(open: set<int>, h: int) {
    0 <= h < MAX_FILE_HANDLES && h !in open && forall k :: 0 <= k < h ==> k in open
  }

  ghost predicate HasFree(open: set<int>) {
    exists h :: 0 <= h < MAX_FILE_HANDLES && h !in open
  }

  /** A handle that stands at the start of `content`. */
  ghost predicate AtStart(d: Driver, h: int, content: seq<byte>)
    reads d, d.Repr
  {
    d.Valid() && d.IsOpen(h) && d.FileOf(h).Stands(d.v, content, 0)
  }

  ghost predicate RootFresh(d: Driver)
    reads d, d.Repr
  {
    d.v.Good() && AtStart(d, ROOT_DIRECTORY_HANDLE, d.v.RootBytes())
  }

  /** After a search of the root for a name the root is as good as new: the sector that the search
      stopped in looks like the first one. Stopping in the first one is the ordinary case. */
  ghost predicate RootKept(v: Volume, short: seq<byte>)
    requires v.Good()
  {
    v.LikeFirst(ScanEnd(v.RootBytes(), short) / 512)
  }

  /** A search that stops before byte 512 does no harm, whether or not it finds the name. */
  lemma EarlyStop(v: Volume, short: seq<byte>)
    requires v.Good() && ScanEnd(v.RootBytes(), short) < 512
    ensures RootKept(v, short)
  {
    assert v.RootHas(0);
  }

  /** A failing input: the name is found in the last slot of the first sector, so that the next
      sector has been read ahead, and the two sectors differ. */
  lemma LateMatch(v: Volume, short: seq<byte>)
    requires v.Good() && FirstMatch(v.RootBytes(), 0, short) == Some(480)
    ensures v.RootHas(1) && (v.RootSector(1) != v.RootSector(0) ==> !RootKept(v, short))
  {
    assert ScanEnd(v.RootBytes(), short) / 512 == 1;
  }

  /** Closing a directory. */
  method CloseDirectory(d: Driver, current: int, ghost dir: seq<byte>)
    requires d.Valid() && d.IsOpen(current) && d.Synced(current) && d.Content(current) == dir
    modifies d.FileOf(current)`position, d.FileOf(current)`currentCluster, d.FileOf(current)`isOpen
    ensures d.Valid() && d.OpenSet() == old(d.OpenSet()) - {current}
    ensures current == ROOT_DIRECTORY_HANDLE ==>
      d.v.RootHas(old(d.FileOf(current).position) / 512)
      && (RootFresh(d) <==> d.v.LikeFirst(old(d.FileOf(current).position) / 512))
    ensures current != ROOT_DIRECTORY_HANDLE ==> RootFresh(d) == old(RootFresh(d))
  {
    d.Close(current);
  }

  /** The search of a directory from its start. */
  method Search(d: Driver, current: int, name: array<byte>, ghost dir: seq<byte>, ghost short: seq<byte>)
    returns (found: bool, e: DirEntry)
    requires AtStart(d, current, dir) && d.part.disk.Reliable()
    requires 0 in name[..] && name !in d.Repr && short == ShortName(CString(name[..]))
    modifies d.FileOf(current)`position, d.FileOf(current)`size, d.FileOf(current)`currentCluster
    modifies d.FileOf(current)`currentSectorInCluster, d.FileOf(current).buffer
    modifies d`fatCachePosition, d`fatFault, d.fatCache, d.part.disk
    ensures d.Valid() && d.IsOpen(current) && d.Synced(current) && d.Content(current) == dir
    ensures d.part.disk.failures == old(d.part.disk.failures) && d.OpenSet() == old(d.OpenSet())
    ensures d.FileOf(current).position == ScanEnd(dir, short)
    ensures match FirstMatch(dir, 0, short)
      case None => !found
      case Some(p) => found && e == EntryAt(dir, p)
    ensures current != ROOT_DIRECTORY_HANDLE ==> RootFresh(d) == old(RootFresh(d))
  {
    ghost var root := d.root.Stands(d.v, d.v.RootBytes(), 0);
    found, e := FindFile(d, current, name);
    assert current != ROOT_DIRECTORY_HANDLE ==> d.root.Stands(d.v, d.v.RootBytes(), 0) == root;
  }

  /** The search of a directory, which is closed again either way. */
  method SearchAndClose(d: Driver, current: int, name: array<byte>, ghost dir: seq<byte>, ghost short: seq<byte>)
    returns (found: bool, e: DirEntry)
    requires AtStart(d, current, dir) && d.part.disk.Reliable()
    requires 0 in name[..] && name !in d.Repr && short == ShortName(CString(name[..]))
    modifies d.FileOf(current), d.FileOf(current).buffer, d`fatCachePosition, d`fatFault, d.fatCache, d.part.disk
    ensures d.Valid() && d.part.disk.failures == old(d.part.disk.failures)
    ensures d.OpenSet() == old(d.OpenSet()) - {current}
    ensures match FirstMatch(dir, 0, short)
      case None => !found
      case Some(p) => found && e == EntryAt(dir, p)
    ensures RootFresh(d) <==> if current == ROOT_DIRECTORY_HANDLE then RootKept(d.v, short) else old(RootFresh(d))
  {
    found, e := Search(d, current, name, dir, short);
    CloseDirectory(d, current, dir);
  }

  /** The outcome of opening `e` with the slots in `open` taken. */
  ghost predicate OpenedNext(d: Driver, open: set<int>, next: FilePtr, e: DirEntry)
    reads d, d.Repr
  {
    && d.Valid()
    && match next
       case Null => d.OpenSet() == open && !HasFree(open)
       case File(h) =>
         && LowestFree(open, h) && d.OpenSet() == open + {h}
         && AtStart(d, h, d.v.Content(e))
  }

  /** The outcome of looking for `component` in `dir`, with the slots in `open` taken besides. */
  ghost predicate Stepped(d: Driver, open: set<int>, dir: seq<byte>, component: seq<byte>,
                          found: bool, next: FilePtr, e: DirEntry)
    reads d, d.Repr
  {
    && d.Valid()
    && match FirstMatch(dir, 0, ShortName(component))
       case None => !found && d.OpenSet() == open
       case Some(p) => found && e == EntryAt(dir, p) && OpenedNext(d, open, next, e)
  }

  /** Opening an entry leaves the root as it is. */
  method OpenNext(d: Driver, entry: DirEntry, ghost open: set<int>) returns (next: FilePtr)
    requires d.Valid() && EntryOk(d.v, entry) && d.part.disk.Reliable() && d.OpenSet() == open
    modifies (set f | f in d.files && !f.isOpen), (set f | f in d.files && !f.isOpen :: f.buffer), d.part.disk
    ensures d.part.disk.failures == old(d.part.disk.failures)
    ensures OpenedNext(d, open, next, entry)
    ensures RootFresh(d) == old(RootFresh(d))
  {
    next := d.OpenEntry(entry);
  }

  /** The other part of the loop: search, close the directory, and open what was found. */
  method Step(d: Driver, current: int, name: array<byte>, isLast: bool, ghost dir: seq<byte>, ghost component: seq<byte>,
              ghost open: set<int>)
    returns (found: bool, refused: bool, next: FilePtr, ghost e: DirEntry)
    requires AtStart(d, current, dir) && d.part.disk.Reliable() && d.OpenSet() - {current} == open
    requires 0 in name[..] && name !in d.Repr && CString(name[..]) == component
    requires match FirstMatch(dir, 0, ShortName(component))
      case None => true
      case Some(p) => EntryOk(d.v, EntryAt(dir, p))
    modifies d.FileOf(current), d.FileOf(current).buffer, d`fatCachePosition, d`fatFault, d.fatCache, d.part.disk
    modifies (set f | f in d.files && !f.isOpen), (set f | f in d.files && !f.isOpen :: f.buffer)
    ensures d.part.disk.failures == old(d.part.disk.failures)
    ensures Stepped(d, open, dir, component, found, next, e) && !refused
    ensures RootFresh(d) <==>
      if current == ROOT_DIRECTORY_HANDLE then RootKept(d.v, ShortName(component)) else old(RootFresh(d))
  {
    next := Null;
    var entry;
    found, entry := SearchAndClose(d, current, name, dir, ShortName(component));
    assert d.OpenSet() == open;
    e := entry;
    refused := found && Refuses(isLast, entry);
    ghost var before := RootFresh(d);
    if found && !refused {
      next := OpenNext(d, entry, open);
    }
    assert RootFresh(d) == before;
  }

  /** `FAT_Open` skips one leading slash. */
  function Stripped(path: seq<byte>): seq<byte> {
    if path != [] && path[0] == SLASH then path[1..] else path
  }

  /** That makes no difference to where a path leads, and nothing else is skipped. */
  lemma LeadingSlash(path: seq<byte>)
    requires path == [] || path[0] != 47
    ensures Stripped([47] + path) == path && Stripped(path) == path
  {
  }

  /** What is known between two passes of the loop of `FAT_Open`: either nothing has been opened
      yet, or the one handle opened so far stands at the start of what the components used up so
      far lead to. */
  ghost predicate Between(d: Driver, open: set<int>, start: seq<byte>, rest: seq<byte>, current: int, e: DirEntry, tail: byte)
    reads d, d.Repr
  {
    && d.Valid()
    && (if current == ROOT_DIRECTORY_HANDLE then
          rest == start && d.OpenSet() == open && RootFresh(d)
        else
          && |rest| < |start| && LowestFree(open, current) && d.OpenSet() == open + {current}
          && AtStart(d, current, d.v.Content(e))
          && (RootFresh(d) <==> RootKept(d.v, ShortName(Head(start, tail)))))
    && (rest != [] ==> Ahead(d.v, start, rest, d.Content(current)))
    && (rest == [] && start != [] ==> Resolve(d.v, d.v.RootBytes(), start, tail) == Found(e))
  }

  /** The rest of the path, looked up in `dir`, decides where the whole path leads. */
  ghost predicate Ahead(v: Volume, start: seq<byte>, rest: seq<byte>, dir: seq<byte>) {
    && v.Good() && 0 < |rest| <= |start| && PathOk(v, dir, rest)
    && (rest != start ==> IndexOf(start, SLASH) < |start|)
    && forall tail: byte :: Resolve(v, v.RootBytes(), start, tail) == Resolve(v, dir, rest, tail)
  }

  /** One component further. */
  lemma AheadStep(v: Volume, start: seq<byte>, rest: seq<byte>, dir: seq<byte>, tail: byte, e: DirEntry)
    requires Ahead(v, start, rest, dir)
    requires var m := FirstMatch(dir, 0, ShortName(Head(rest, tail))); m.Some? && e == EntryAt(dir, m.value)
    ensures Rest(rest) != [] ==> Ahead(v, start, Rest(rest), v.Content(e))
    ensures Rest(rest) == [] ==> Resolve(v, v.RootBytes(), start, tail) == Found(e)
  {
    if Rest(rest) != [] {
      assert Head(rest, tail) == Head(rest, 0);
      forall t: byte
        ensures Resolve(v, v.RootBytes(), start, t) == Resolve(v, v.Content(e), Rest(rest), t)
      {
        assert Head(rest, t) == Head(rest, tail);
        assert Resolve(v, v.RootBytes(), start, t) == Resolve(v, dir, rest, t);
      }
    }
  }

  /** When `FAT_Open` follows the null pointer that `FAT_OpenEntry` returns: all slots are taken,
      the first component exists, and there are more of them. */
  ghost predicate FollowsNull(v: Volume, open: set<int>, start: seq<byte>, tail: byte)
    requires v.Good() && start != []
  {
    !HasFree(open) && FirstMatch(v.RootBytes(), 0, ShortName(Head(start, tail))).Some? && Rest(start) != []
  }

  /** What `FAT_Open` promises. If it follows a null pointer (`followedNull`), nothing is known of
      what comes after. */
  ghost predicate Outcome(d: Driver, open: set<int>, start: seq<byte>, r: FilePtr, followedNull: bool, tail: byte)
    reads d, d.Repr
  {
    && d.Valid()
    && if start == [] then
         r == File(ROOT_DIRECTORY_HANDLE) && !followedNull && RootFresh(d) && d.OpenSet() == open
       else
         && (followedNull <==> FollowsNull(d.v, open, start, tail))
         && (!followedNull ==>
               && (RootFresh(d) <==> RootKept(d.v, ShortName(Head(start, tail))))
               && match Resolve(d.v, d.v.RootBytes(), start, tail)
                  case Missing => r == Null && d.OpenSet() == open
                  case Found(e) => if HasFree(open) then OpenedNext(d, open, r, e) else r == Null && d.OpenSet() == open)
  }

  /** There are ten slots. */
  lemma TenSlots(open: set<int>)
    ensures HasFree(open) <==> !({0, 1, 2, 3, 4, 5, 6, 7, 8, 9} <= open)
  {
    if HasFree(open) {
      var h :| 0 <= h < MAX_FILE_HANDLES && h !in open;
      assert h in {0, 1, 2, 3, 4, 5, 6, 7, 8, 9};
    } else {
      forall h | h in {0, 1, 2, 3, 4, 5, 6, 7, 8, 9}
        ensures h in open
      {
        assert 0 <= h < MAX_FILE_HANDLES;
      }
    }
  }

  /** A failing input: ten open slots, the path A/B, and an entry A in the first slot of the root. */
  lemma FullSlotsFollowNull(v: Volume, tail: byte)
    requires v.Good() && |v.RootBytes()| >= 32 && v.RootBytes()[..11] == ShortName([65])
    ensures FollowsNull(v, {0, 1, 2, 3, 4, 5, 6, 7, 8, 9}, [65, SLASH, 66], tail)
  {
    var start: seq<byte> := [65, SLASH, 66];
    IndexOfUnique(start, SLASH, 1);
    assert start[..1] == [65];
    assert v.RootBytes()[0..0 + 11] == v.RootBytes()[..11];
  }

  lemma WithoutCurrent(d: Driver, open: set<int>, start: seq<byte>, rest: seq<byte>, current: int, e: DirEntry, tail: byte)
    requires Between(d, open, start, rest, current, e, tail)
    ensures d.OpenSet() - {current} == open
    ensures current != ROOT_DIRECTORY_HANDLE && rest != [] ==> IndexOf(start, SLASH) < |start|
  {
  }

  /** The state after one pass: on to the next component, or the end. */
  ghost predicate AfterPass(d: Driver, open: set<int>, start: seq<byte>, after: seq<byte>, found: bool, next: FilePtr,
                            e: DirEntry, tail: byte)
    reads d, d.Repr
  {
    if found && next.File? then Between(d, open, start, after, next.handle, e, tail)
    else Outcome(d, open, start, Null, found && after != [], tail)
  }

  lemma PassDone(d: Driver, open: set<int>, start: seq<byte>, rest: seq<byte>, dir: seq<byte>, atRoot: bool, tail: byte,
                 found: bool, next: FilePtr, e: DirEntry)
    requires d.Valid() && Ahead(d.v, start, rest, dir) && Stepped(d, open, dir, Head(rest, tail), found, next, e)
    requires RootFresh(d) <==> RootKept(d.v, ShortName(Head(start, tail)))
    requires if atRoot then rest == start && dir == d.v.RootBytes() else HasFree(open)
    ensures AfterPass(d, open, start, Rest(rest), found, next, e, tail)
  {
    if found {
      AheadStep(d.v, start, rest, dir, tail, e);
    }
  }

  lemma HeadOfStart(start: seq<byte>, tail: byte, tail': byte)
    requires IndexOf(start, SLASH) < |start|
    ensures Head(start, tail) == Head(start, tail')
  {
  }

  /** As long as components are left, the stray character does not matter. */
  lemma BetweenAnyTail(d: Driver, open: set<int>, start: seq<byte>, rest: seq<byte>, current: int, e: DirEntry, tail: byte, tail': byte)
    requires Between(d, open, start, rest, current, e, tail) && rest != []
    ensures Between(d, open, start, rest, current, e, tail')
  {
    if current != ROOT_DIRECTORY_HANDLE {
      HeadOfStart(start, tail, tail');
    }
  }

  /** One pass, once the component is in the name buffer. */
  method StepOn(d: Driver, name: array<byte>, rest: seq<byte>, isLast: bool, current: int,
                ghost open: set<int>, ghost start: seq<byte>, ghost e: DirEntry, ghost tail: byte)
    returns (found: bool, refused: bool, next: FilePtr, ghost e': DirEntry)
    requires Between(d, open, start, rest, current, e, tail) && rest != [] && d.part.disk.Reliable()
    requires 0 in name[..] && CString(name[..]) == Head(rest, tail) && name !in d.Repr
    modifies d.FileOf(current), d.FileOf(current).buffer, d`fatCachePosition, d`fatFault, d.fatCache, d.part.disk
    modifies (set f | f in d.files && !f.isOpen), (set f | f in d.files && !f.isOpen :: f.buffer)
    ensures d.part.disk.failures == old(d.part.disk.failures)
    ensures AfterPass(d, open, start, Rest(rest), found, next, e', tail) && !refused
  {
    ghost var dir, atRoot := d.Content(current), current == ROOT_DIRECTORY_HANDLE;
    WithoutCurrent(d, open, start, rest, current, e, tail);
    assert StepOk(d.v, dir, rest, tail);
    found, refused, next, e' := Step(d, current, name, isLast, dir, Head(rest, tail), open);
    PassDone(d, open, start, rest, dir, atRoot, tail, found, next, e');
  }

  /** `spare` has the slots that are not among the open ones, and their buffers. */
  ghost predicate Spares(d: Driver, open: set<int>, spare: set<object>) {
    && |d.files| == MAX_FILE_HANDLES && d !in spare
    && forall h :: 0 <= h < MAX_FILE_HANDLES && h !in open ==> d.files[h] in spare && d.files[h].buffer in spare
  }

  /** The objects that belong to closed slots. */
  lemma ClosedAreSpare(d: Driver, open: set<int>, spare: set<object>)
    requires d.Layout() && Spares(d, open, spare) && open <= d.OpenSet()
    ensures forall f :: f in d.files && !f.isOpen ==> f in spare && f.buffer in spare
  {
    forall f | f in d.files && !f.isOpen
      ensures f in spare && f.buffer in spare
    {
      var h :| 0 <= h < |d.files| && d.files[h] == f;
      assert h !in open;
    }
  }

  /** One pass of the loop of `FAT_Open`. */
  method Pass(d: Driver, name: array<byte>, rest: seq<byte>, current: int, ghost spare: set<object>,
              ghost open: set<int>, ghost start: seq<byte>, ghost e: DirEntry, ghost tail: byte)
    returns (more: bool, next: int, after: seq<byte>, followedNull: bool, ghost e': DirEntry, ghost tail': byte)
    requires Between(d, open, start, rest, current, e, tail) && rest != [] && d.part.disk.Reliable()
    requires name.Length == MAX_PATH_SIZE && name !in d.Repr && Spares(d, open, spare)
    modifies name, d.root, d.root.buffer, spare, d`fatCachePosition, d`fatFault, d.fatCache, d.part.disk
    ensures d.part.disk.failures == old(d.part.disk.failures)
    ensures |after| < |rest|
    ensures if more then Between(d, open, start, after, next, e', tail')
            else Outcome(d, open, start, Null, followedNull, tail')
  {
    var isLast;
    after, isLast, tail' := SplitPath(name, rest);
    BetweenAnyTail(d, open, start, rest, current, e, tail, tail');
    ClosedAreSpare(d, open, spare);
    var found, refused, entry;
    found, refused, entry, e' := StepOn(d, name, rest, isLast, current, open, start, e, tail');
    more := found && entry.File?;
    next := if more then entry.handle else current;
    followedNull := found && !refused && after != [];
  }

  lemma OpenDone(d: Driver, open: set<int>, start: seq<byte>, current: int, e: DirEntry, tail: byte)
    requires Between(d, open, start, [], current, e, tail)
    ensures Outcome(d, open, start, File(current), false, tail)
  {
    if current == ROOT_DIRECTORY_HANDLE {
      assert start == [];
    }
  }

  /** The loop of `FAT_Open`, on a path without its leading slash. */
  method Walk(d: Driver, name: array<byte>, start: seq<byte>, ghost open: set<int>, ghost spare: set<object>)
    returns (r: FilePtr, followedNull: bool, ghost tail: byte)
    requires RootFresh(d) && d.part.disk.Reliable() && d.OpenSet() == open && Spares(d, open, spare)
    requires start != [] ==> PathOk(d.v, d.v.RootBytes(), start)
    requires name.Length == MAX_PATH_SIZE && name !in d.Repr
    modifies name, d.root, d.root.buffer, spare, d`fatCachePosition, d`fatFault, d.fatCache, d.part.disk
    ensures Outcome(d, open, start, r, followedNull, tail)
    ensures d.part.disk.failures == old(d.part.disk.failures)
  {
    var current := ROOT_DIRECTORY_HANDLE;
    var rest := start;
    ghost var e := DirEntry([], 0, 0, 0);
    followedNull, tail := false, 0;
    while rest != []
      invariant Between(d, open, start, rest, current, e, tail)
      invariant d.part.disk.failures == old(d.part.disk.failures)
      decreases |rest|
    {
      var more;
      more, current, rest, followedNull, e, tail := Pass(d, name, rest, current, spare, open, start, e, tail);
      if !more {
        return Null, followedNull, tail;
      }
    }
    r, followedNull := File(current), false;
    OpenDone(d, open, start, current, e, tail);
  }

  /** `FAT_Open`. */
  method Open(d: Driver, path: seq<byte>) returns (r: FilePtr, followedNull: bool, ghost tail: byte)
    requires RootFresh(d) && d.part.disk.Reliable()
    requires Stripped(path) != [] ==> PathOk(d.v, d.v.RootBytes(), Stripped(path))
    modifies d.root, d.root.buffer, d`fatCachePosition, d`fatFault, d.fatCache, d.part.disk
    modifies (set f | f in d.files && !f.isOpen), (set f | f in d.files && !f.isOpen :: f.buffer)
    ensures Outcome(d, old(d.OpenSet()), Stripped(path), r, followedNull, tail)
    ensures d.part.disk.failures == old(d.part.disk.failures)
  {
    var name := new byte[MAX_PATH_SIZE];
    ghost var spare: set<object> :=
      (set f | f in d.files && !f.isOpen) + (set f | f in d.files && !f.isOpen :: f.buffer);
    r, followedNull, tail := Walk(d, name, Stripped(path), d.OpenSet(), spare);
  }
}
