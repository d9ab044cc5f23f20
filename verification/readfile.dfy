/** `FAT_ReadFile`: a file from the disk on the screen, a hundred bytes at a time. */
module FilePrinting {
  import opened Bytes
  import opened Characters
  import opened Console
  import opened FatDriver
  import opened FileAccess
  import opened PathLookup
  import opened Terminals
  import opened Volumes

  const CHUNK := 100

  function Line(c: byte): seq<byte> { if c == NEWLINE then [RETURN, NEWLINE] else [c] }

  /** The text with every newline turned into carriage return and newline. */
  function CrLf(s: seq<byte>): seq<byte> {
    if s == [] then []
    else CrLf(s[..|s| - 1]) + Line(s[|s| - 1])
  }

  lemma {:induction false} CrLfJoin(a: seq<byte>, b: seq<byte>)
    ensures CrLf(a + b) == CrLf(a) + CrLf(b)
    decreases |b|
  {
    if b == [] {
      assert a + b == a;
    } else {
      var joined, front, last := a + b, b[..|b| - 1], Line(b[|b| - 1]);
      assert joined[..|joined| - 1] == a + front;
      CrLfJoin(a, front);
      assert CrLf(a) + CrLf(front) + last == CrLf(a) + (CrLf(front) + last);
    }
  }

  /** A carriage return in front of a newline does not change what the terminal shows. */
  lemma {:induction false} CrLfHarmless(t: Terminal, s: seq<byte>)
    requires t.x < WIDTH
    ensures t.PutAll(CrLf(s)) == t.PutAll(s)
    decreases |s|
  {
    if s != [] {
      var front, c := s[..|s| - 1], s[|s| - 1];
      CrLfHarmless(t, front);
      PutAllJoin(t, CrLf(front), Line(c));
      if c == NEWLINE {
        PutTwo(t.PutAll(front), RETURN, NEWLINE);
      } else {
        PutOne(t.PutAll(front), c);
      }
    }
  }

  lemma PutTwo(t: Terminal, a: byte, b: byte)
    requires t.x < WIDTH
    ensures t.PutAll([a, b]) == t.Put(a).Put(b)
  {
    assert [a, b][..1] == [a];
    PutOne(t, a);
  }

  /** One character, with a carriage return before a newline. */
  method EchoOne(screen: Screen, c: byte)
    requires screen.Valid()
    modifies screen, screen.g
    ensures screen.Valid() && screen.term == old(screen.term).PutAll(Line(c))
  {
    ghost var t := screen.term;
    if c == NEWLINE {
      screen.Putc(RETURN);
      PutTwo(t, RETURN, NEWLINE);
    } else {
      PutOne(t, c);
    }
    screen.Putc(c);
  }

  lemma EchoStep(t: Terminal, s: seq<byte>, i: nat)
    requires t.x < WIDTH && i < |s|
    ensures t.PutAll(CrLf(s[..i + 1])) == t.PutAll(CrLf(s[..i])).PutAll(Line(s[i]))
  {
    var longer, shorter := s[..i + 1], s[..i];
    assert longer[..i] == shorter;
    PutAllJoin(t, CrLf(shorter), Line(s[i]));
  }

  /** The characters of one chunk. */
  method Echo(screen: Screen, buffer: array<byte>, n: nat)
    requires screen.Valid() && n <= buffer.Length && buffer != screen.g
    modifies screen, screen.g
    ensures screen.Valid() && screen.term == old(screen.term).PutAll(CrLf(buffer[..n]))
  {
    ghost var s, t := buffer[..n], screen.term;
    assert s[..0] == [];
    for i := 0 to n
      invariant screen.Valid() && buffer[..n] == s
      invariant screen.term == t.PutAll(CrLf(s[..i]))
    {
      EchoStep(t, s, i);
      var c := buffer[i];
      assert c == s[i];
      EchoOne(screen, c);
    }
    assert s[..n] == s;
  }

  /** The next piece of the file. */
  method NextPiece(d: Driver, h: int, buffer: array<byte>, ghost file: seq<byte>, ghost p: nat)
    returns (n: nat, ghost p': nat)
    requires Reading(d, h, file, p) && d.part.disk.Reliable() && p <= |file|
    requires buffer.Length == CHUNK && buffer !in d.Repr
    modifies d.FileOf(h)`position, d.FileOf(h)`size, d.FileOf(h)`currentCluster, d.FileOf(h)`currentSectorInCluster
    modifies d.FileOf(h).buffer, d`fatCachePosition, d`fatFault, d.fatCache, d.part.disk, buffer
    ensures p' == p + n && n == Min(CHUNK, |file| - p) && Reading(d, h, file, p') && buffer[..n] == file[p..p']
    ensures d.OpenSet() == old(d.OpenSet()) && d.part.disk.failures == old(d.part.disk.failures)
  {
    ghost var piece;
    n, piece, p' := Fetch(d, h, CHUNK, buffer, 0, file, p);
    assert buffer[..n] == piece;
  }

  /** The first `p` bytes of the file have been printed. */
  ghost predicate Printed(screen: Screen, start: Terminal, file: seq<byte>, p: nat)
    reads screen, screen.g
  {
    screen.Valid() && start.x < WIDTH && p <= |file| && screen.term == start.PutAll(CrLf(file[..p]))
  }

  lemma PieceShown(start: Terminal, file: seq<byte>, p: nat, p': nat, piece: seq<byte>, now: Terminal)
    requires p <= p' <= |file| && start.x < WIDTH && piece == file[p..p']
    requires now == start.PutAll(CrLf(file[..p]))
    ensures now.x < WIDTH && now.PutAll(CrLf(piece)) == start.PutAll(CrLf(file[..p']))
  {
    CrLfOfPiece(file, p, p', piece);
    PutAllJoin(start, CrLf(file[..p]), CrLf(piece));
  }

  lemma CrLfOfPiece(file: seq<byte>, p: nat, p': nat, piece: seq<byte>)
    requires p <= p' <= |file| && piece == file[p..p']
    ensures CrLf(file[..p']) == CrLf(file[..p]) + CrLf(piece)
  {
    CrLfJoin(file[..p], piece);
    assert file[..p'] == file[..p] + piece;
  }

  method EchoPiece(screen: Screen, buffer: array<byte>, n: nat, ghost start: Terminal, ghost file: seq<byte>, ghost p: nat,
                   ghost p': nat)
    requires Printed(screen, start, file, p) && p <= p' <= |file|
    requires n <= buffer.Length && buffer != screen.g && buffer[..n] == file[p..p']
    modifies screen, screen.g
    ensures Printed(screen, start, file, p')
  {
    PieceShown(start, file, p, p', buffer[..n], screen.term);
    Echo(screen, buffer, n);
  }

  /** A screen whose memory is not the driver's. */
  ghost predicate Apart(d: Driver, screen: Screen) {
    screen !in d.Repr && screen.g !in d.Repr
  }

  /** The same beside the open file. */
  method EchoBeside(d: Driver, h: int, screen: Screen, buffer: array<byte>, n: nat, ghost start: Terminal, ghost file: seq<byte>,
                    ghost p: nat, ghost p': nat, ghost open: set<int>)
    requires Reading(d, h, file, p') && d.OpenSet() == open && Apart(d, screen)
    requires Printed(screen, start, file, p) && p <= p' <= |file|
    requires n <= buffer.Length && buffer != screen.g && buffer[..n] == file[p..p']
    modifies screen, screen.g
    ensures Reading(d, h, file, p') && d.OpenSet() == open && d.part.disk.failures == old(d.part.disk.failures)
    ensures Printed(screen, start, file, p')
  {
    EchoPiece(screen, buffer, n, start, file, p, p');
  }

  /** One pass of the loop. */
  method PrintPiece(d: Driver, h: int, buffer: array<byte>, screen: Screen, ghost start: Terminal, ghost file: seq<byte>, ghost p: nat)
    returns (n: nat, ghost p': nat)
    requires Reading(d, h, file, p) && d.part.disk.Reliable() && Printed(screen, start, file, p)
    requires buffer.Length == CHUNK && buffer !in d.Repr && buffer != screen.g && Apart(d, screen)
    modifies d.FileOf(h)`position, d.FileOf(h)`size, d.FileOf(h)`currentCluster, d.FileOf(h)`currentSectorInCluster
    modifies d.FileOf(h).buffer, d`fatCachePosition, d`fatFault, d.fatCache, d.part.disk, buffer, screen, screen.g
    ensures p' == p + n && n == Min(CHUNK, |file| - p) && Reading(d, h, file, p') && Printed(screen, start, file, p')
    ensures d.OpenSet() == old(d.OpenSet()) && d.part.disk.failures == old(d.part.disk.failures)
  {
    n, p' := NextPiece(d, h, buffer, file, p);
    EchoBeside(d, h, screen, buffer, n, start, file, p, p', d.OpenSet());
  }

  /** The loop. */
  method PrintFile(d: Driver, h: int, buffer: array<byte>, screen: Screen, ghost file: seq<byte>)
    requires Reading(d, h, file, 0) && d.part.disk.Reliable() && screen.Valid() && Apart(d, screen)
    requires buffer.Length == CHUNK && buffer !in d.Repr && buffer != screen.g
    modifies d.FileOf(h)`position, d.FileOf(h)`size, d.FileOf(h)`currentCluster, d.FileOf(h)`currentSectorInCluster
    modifies d.FileOf(h).buffer, d`fatCachePosition, d`fatFault, d.fatCache, d.part.disk, buffer, screen, screen.g
    ensures Reading(d, h, file, |file|) && Printed(screen, old(screen.term), file, |file|)
    ensures d.OpenSet() == old(d.OpenSet()) && d.part.disk.failures == old(d.part.disk.failures)
  {
    ghost var start, p := screen.term, 0;
    assert file[..0] == [];
    var more := true;
    while more
      invariant 0 <= p <= |file| && (!more ==> p == |file|)
      invariant Reading(d, h, file, p) && Printed(screen, start, file, p)
      invariant d.OpenSet() == old(d.OpenSet()) && d.part.disk.failures == old(d.part.disk.failures)
      decreases |file| - p, more
    {
      var read;
      read, p := PrintPiece(d, h, buffer, screen, start, file, p);
      more := read > 0;
    }
  }

  /** The end of the last line. */
  method EndFile(screen: Screen, ghost start: Terminal, ghost file: seq<byte>)
    requires Printed(screen, start, file, |file|)
    modifies screen, screen.g
    ensures screen.Valid() && screen.term == start.PutAll(file).Put(NEWLINE)
  {
    assert file[..|file|] == file;
    CrLfHarmless(start, file);
    screen.Putc(NEWLINE);
  }

  /** The same beside the open file. */
  method EndBeside(d: Driver, h: int, screen: Screen, ghost start: Terminal, ghost file: seq<byte>, ghost open: set<int>)
    requires Reading(d, h, file, |file|) && d.OpenSet() == open && Apart(d, screen)
    requires Printed(screen, start, file, |file|)
    modifies screen, screen.g
    ensures Reading(d, h, file, |file|) && d.OpenSet() == open && d.part.disk.failures == old(d.part.disk.failures)
    ensures screen.Valid() && screen.term == start.PutAll(file).Put(NEWLINE)
  {
    EndFile(screen, start, file);
  }

  /** The whole file, and the end of its last line. */
  method PrintAll(d: Driver, h: int, screen: Screen, ghost file: seq<byte>)
    requires Reading(d, h, file, 0) && d.part.disk.Reliable() && screen.Valid() && Apart(d, screen)
    modifies d.FileOf(h)`position, d.FileOf(h)`size, d.FileOf(h)`currentCluster, d.FileOf(h)`currentSectorInCluster
    modifies d.FileOf(h).buffer, d`fatCachePosition, d`fatFault, d.fatCache, d.part.disk, screen, screen.g
    ensures Reading(d, h, file, |file|)
    ensures d.OpenSet() == old(d.OpenSet()) && d.part.disk.failures == old(d.part.disk.failures)
    ensures screen.Valid() && screen.term == old(screen.term).PutAll(file).Put(NEWLINE)
  {
    var buffer := new byte[CHUNK];
    ghost var start := screen.term;
    PrintFile(d, h, buffer, screen, file);
    EndBeside(d, h, screen, start, file, d.OpenSet());
  }

  /** The file is shown and closed. */
  method PrintAndClose(d: Driver, path: seq<byte>, h: int, screen: Screen, ghost e: DirEntry, ghost open: set<int>,
                       ghost file: seq<byte>)
    requires Reading(d, h, file, 0) && d.part.disk.Reliable() && screen.Valid() && Apart(d, screen)
    requires LowestFree(open, h) && d.OpenSet() == open + {h} && LeadsTo(d.v, path, e)
    modifies d.FileOf(h)`position, d.FileOf(h)`size, d.FileOf(h)`currentCluster, d.FileOf(h)`currentSectorInCluster
    modifies d.FileOf(h)`isOpen, d.FileOf(h).buffer, d`fatCachePosition, d`fatFault, d.fatCache, d.part.disk, screen, screen.g
    ensures Ready(d, path, e, open) && d.part.disk.failures == old(d.part.disk.failures)
    ensures screen.Valid() && screen.term == old(screen.term).PutAll(file).Put(NEWLINE)
  {
    PrintAll(d, h, screen, file);
    CloseFile(d, path, h, e, open);
  }

  /** `FAT_ReadFile`: the whole file is shown, however it lies on the disk and wherever its
      lines fall in the chunks; the handle is closed again. */
  method ReadFile(d: Driver, path: seq<byte>, screen: Screen, ghost e: DirEntry, ghost open: set<int>)
    requires Ready(d, path, e, open) && d.part.disk.Reliable() && screen.Valid() && Apart(d, screen)
    modifies d.root, d.root.buffer, d`fatCachePosition, d`fatFault, d.fatCache, d.part.disk, screen, screen.g
    modifies (set f | f in d.files && !f.isOpen), (set f | f in d.files && !f.isOpen :: f.buffer)
    ensures Ready(d, path, e, open) && d.part.disk.failures == old(d.part.disk.failures)
    ensures screen.Valid()
    ensures screen.term == old(screen.term).PutAll(d.v.Content(e)).Put(NEWLINE)
  {
    ghost var file := d.v.Content(e);
    var h := OpenFile(d, path, e, open);
    PrintAndClose(d, path, h, screen, e, open, file);
  }
}
