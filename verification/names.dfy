/** 8.3 names: what `FAT_GetShortName` makes of a component of a path. */
module ShortNames {
  import opened Bytes
  import opened Characters

  /** `toupper`. */
  function Upper(c: byte): byte {
    if 97 <= c <= 122 then c - 32 else c
  }

  function UpperAll(s: seq<byte>): (r: seq<byte>)
    ensures |r| == |s| && forall i :: 0 <= i < |s| ==> r[i] == Upper(s[i])
  {
    seq(|s|, i requires 0 <= i < |s| => Upper(s[i]))
  }

  lemma Alphabet()
    ensures UpperAll(Ascii("abcdefghijklmnopqrstuvwxyz")) == Ascii("ABCDEFGHIJKLMNOPQRSTUVWXYZ")
    ensures forall c: byte :: c < 'a' as int || c > 'z' as int ==> Upper(c) == c
  {
  }

  /** `strchr`: the first index of `c`, or the length if there is none. */
  function IndexOf(s: seq<byte>, c: byte): (i: nat)
    ensures i <= |s| && c !in s[..i] && (i < |s| ==> s[i] == c)
  {
    if s == [] || s[0] == c then 0
    else
      var i := 1 + IndexOf(s[1..], c);
      assert s[..i] == [s[0]] + s[1..][..i - 1];
      i
  }

  lemma {:induction false} IndexOfUnique(s: seq<byte>, c: byte, i: nat)
    requires i <= |s| && c !in s[..i] && (i < |s| ==> s[i] == c)
    ensures IndexOf(s, c) == i
  {
    if i > 0 {
      assert s[..i][0] != c;
      assert s[..i] == [s[0]] + s[1..][..i - 1];
      IndexOfUnique(s[1..], c, i - 1);
    }
  }

  /** The C string at the start of a buffer: everything before the first NUL. */
  function CString(s: seq<byte>): seq<byte> {
    s[..IndexOf(s, 0)]
  }

  /** Character `i` of the 8 of the base name: the text before the first dot, padded. */
  function BaseChar(s: seq<byte>, i: nat): byte {
    if i < IndexOf(s, DOT) then Upper(s[i]) else SPACE
  }

  /** Character `i` of the 3 of the extension. A dot at index 11 is taken for "no dot": that is
        the address by which the code marks its absence. */
  function ExtChar(s: seq<byte>, i: nat): byte {
    var d := IndexOf(s, DOT);
    if d != 11 && d + 1 + i < |s| then Upper(s[d + 1 + i]) else SPACE
  }

  function ShortName(s: seq<byte>): (r: seq<byte>)
    ensures |r| == 11
    ensures forall i :: 0 <= i < 11 ==> r[i] == if i < 8 then BaseChar(s, i) else ExtChar(s, i - 8)
  {
    seq(11, i requires 0 <= i < 11 => if i < 8 then BaseChar(s, i) else ExtChar(s, i - 8))
  }

  /** The names of the kernel and of the directory that the second stage looks into. */
  lemma KernelName()
    ensures ShortName(Ascii("kernel.elf")) == Ascii("KERNEL  ELF")
  {
    IndexOfUnique(Ascii("kernel.elf"), DOT, 6);
  }

  lemma RootName()
    ensures ShortName(Ascii("root")) == Ascii("ROOT       ")
  {
    IndexOfUnique(Ascii("root"), DOT, 4);
  }

  /** The position of the extension: the first dot, or index 11 if there is none. */
  method FindDot(name: array<byte>) returns (ext: nat)
    requires 0 in name[..]
    ensures var s := CString(name[..]); ext == if IndexOf(s, DOT) < |s| then IndexOf(s, DOT) else 11
  {
    ghost var s := CString(name[..]);
    var i := 0;
    while name[i] != 0
      invariant 0 <= i <= |s| < name.Length && DOT !in s[..i]
      decreases |s| - i
    {
      if name[i] == DOT {
        IndexOfUnique(s, DOT, i);
        return i;
      }
      i := i + 1;
    }
    assert i == |s|;
    IndexOfUnique(s, DOT, i);
    return 11;
  }

  method FillBase(name: array<byte>, shortName: array<byte>, ext: nat)
    requires 0 in name[..] && shortName.Length == 12 && name != shortName
    requires var s := CString(name[..]); ext == if IndexOf(s, DOT) < |s| then IndexOf(s, DOT) else 11
    requires forall k :: 0 <= k < 11 ==> shortName[k] == SPACE
    modifies shortName
    ensures forall k :: 0 <= k < 8 ==> shortName[k] == BaseChar(CString(name[..]), k)
    ensures forall k :: 8 <= k < 11 ==> shortName[k] == SPACE
    ensures shortName[11] == old(shortName[11])
  {
    ghost var s := CString(name[..]);
    var i := 0;
    while i < 8 && name[i] != 0 && i < ext
      invariant 0 <= i <= 8 && i <= |s| < name.Length && i <= IndexOf(s, DOT)
      invariant forall k :: 0 <= k < 11 ==> shortName[k] == if k < i then Upper(s[k]) else SPACE
      invariant shortName[11] == old(shortName[11])
    {
      shortName[i] := Upper(name[i]);
      i := i + 1;
    }
  }

  method FillExtension(name: array<byte>, shortName: array<byte>, ext: nat)
    requires 0 in name[..] && shortName.Length == 12 && name != shortName
    requires var s := CString(name[..]); ext == if IndexOf(s, DOT) < |s| then IndexOf(s, DOT) else 11
    requires forall k :: 8 <= k < 11 ==> shortName[k] == SPACE
    modifies shortName
    ensures forall k :: 0 <= k < 12 && !(8 <= k < 11) ==> shortName[k] == old(shortName[k])
    ensures forall k :: 8 <= k < 11 ==> shortName[k] == ExtChar(CString(name[..]), k - 8)
  {
    ghost var s := CString(name[..]);
    if ext != 11 {
      var i := 0;
      while i < 3 && name[ext + i + 1] != 0
        invariant 0 <= i <= 3 && ext + 1 + i <= |s| < name.Length
        invariant forall k :: 0 <= k < 12 && !(8 <= k < 11) ==> shortName[k] == old(shortName[k])
        invariant forall k :: 8 <= k < 11 ==> shortName[k] == if k - 8 < i then Upper(s[ext + 1 + (k - 8)]) else SPACE
      {
        shortName[i + 8] := Upper(name[ext + i + 1]);
        i := i + 1;
      }
    }
  }

  /** `FAT_GetShortName`, on a NUL-terminated buffer. */
  method GetShortName(name: array<byte>, shortName: array<byte>)
    requires 0 in name[..] && shortName.Length == 12 && name != shortName
    modifies shortName
    ensures shortName[..11] == ShortName(CString(name[..])) && shortName[11] == 0
  {
    MemSet(shortName, 0, SPACE, 12);
    assert forall k :: 0 <= k < 12 ==> shortName[k] == shortName[..][k] == SPACE;
    shortName[11] := 0;
    var ext := FindDot(name);
    FillBase(name, shortName, ext);
    FillExtension(name, shortName, ext);
  }

  // ----- legal names

  /** A base of 1 to 8 characters and an extension of up to 3, without dots, spaces or NULs. */
  predicate Plain(s: seq<byte>) {
    forall i :: 0 <= i < |s| ==> s[i] != DOT && s[i] != SPACE && s[i] != 0
  }

  predicate Legal(base: seq<byte>, ext: seq<byte>) {
    1 <= |base| <= 8 && |ext| <= 3 && Plain(base) && Plain(ext)
  }

  /** How such a name is written in a path. */
  function Written(base: seq<byte>, ext: seq<byte>): seq<byte> {
    if ext == [] then base else base + [DOT] + ext
  }

  function Padded(s: seq<byte>, n: nat): seq<byte>
    requires |s| <= n
  {
    s + seq(n - |s|, _ => SPACE)
  }

  /** The stored form of a legal name: both parts upper-cased and padded. */
  lemma LegalForm(base: seq<byte>, ext: seq<byte>)
    requires Legal(base, ext)
    ensures ShortName(Written(base, ext)) == Padded(UpperAll(base), 8) + Padded(UpperAll(ext), 3)
  {
    IndexOfUnique(Written(base, ext), DOT, |base|);
  }

  function Trimmed(s: seq<byte>): (r: seq<byte>)
    ensures |r| <= |s| && s == r + seq(|s| - |r|, _ => SPACE)
    ensures r == [] || r[|r| - 1] != SPACE
  {
    if s == [] || s[|s| - 1] != SPACE then s else
      var r := Trimmed(s[..|s| - 1]);
      assert s == s[..|s| - 1] + [SPACE];
      r
  }

  lemma {:induction false} TrimPadded(a: seq<byte>, n: nat)
    requires |a| <= n && SPACE !in a
    ensures Trimmed(Padded(a, n)) == a
    decreases n
  {
    if |a| < n {
      TrimPadded(a, n - 1);
      assert Padded(a, n)[..n - 1] == Padded(a, n - 1);
    }
  }

  /** Two legal names denote the same file exactly when they are equal ignoring case. */
  lemma Collision(base: seq<byte>, ext: seq<byte>, base': seq<byte>, ext': seq<byte>)
    requires Legal(base, ext) && Legal(base', ext')
    ensures ShortName(Written(base, ext)) == ShortName(Written(base', ext')) <==>
      UpperAll(base) == UpperAll(base') && UpperAll(ext) == UpperAll(ext')
  {
    LegalForm(base, ext);
    LegalForm(base', ext');
    var s, s' := ShortName(Written(base, ext)), ShortName(Written(base', ext'));
    assert s[..8] == Padded(UpperAll(base), 8) && s[8..] == Padded(UpperAll(ext), 3);
    assert s'[..8] == Padded(UpperAll(base'), 8) && s'[8..] == Padded(UpperAll(ext'), 3);
    TrimPadded(UpperAll(base), 8);
    TrimPadded(UpperAll(base'), 8);
    TrimPadded(UpperAll(ext), 3);
    TrimPadded(UpperAll(ext'), 3);
  }

  /** A stored name of the ordinary kind: upper-case, padded only at the end of its parts. */
  predicate Stored(name: seq<byte>) {
    && |name| == 11
    && Legal(Trimmed(name[..8]), Trimmed(name[8..]))
    && forall i :: 0 <= i < 11 ==> Upper(name[i]) == name[i]
  }

  /** Showing a stored name and looking it up again leads back to it. */
  lemma RenderRoundTrip(name: seq<byte>)
    requires Stored(name)
    ensures ShortName(Written(Trimmed(name[..8]), Trimmed(name[8..]))) == name
  {
    var base, ext := Trimmed(name[..8]), Trimmed(name[8..]);
    LegalForm(base, ext);
    assert forall i :: 0 <= i < |base| ==> base[i] == name[..8][i] == name[i];
    assert forall i :: 0 <= i < |ext| ==> ext[i] == name[8..][i] == name[8 + i];
    assert UpperAll(base) == base && UpperAll(ext) == ext;
    assert name == name[..8] + name[8..];
  }

  // ----- the stray character after the last component of a path

  /** Components whose stored form does not depend on one more character at their end. */
  predicate TailHarmless(s: seq<byte>) {
    var d := IndexOf(s, DOT);
    if d == |s| then d >= 8 else d == 11 || d + 4 <= |s|
  }

  lemma TailIgnored(s: seq<byte>, tail: byte)
    requires TailHarmless(s)
    ensures ShortName(s + [tail]) == ShortName(s)
  {
    var d := IndexOf(s, DOT);
    var t := s + [tail];
    if d < |s| {
      assert t[..d] == s[..d];
      IndexOfUnique(t, DOT, d);
    } else {
      var e := if tail == DOT then |s| else |s| + 1;
      assert t[..|s|] == s;
      IndexOfUnique(t, DOT, e);
    }
  }

  /** A failing input for every other component: a letter A behind it shows in the stored form. */
  lemma TailMatters(s: seq<byte>)
    requires !TailHarmless(s)
    ensures ShortName(s + [65]) != ShortName(s)
  {
    var d := IndexOf(s, DOT);
    var t := s + [65];
    assert t[..|s|] == s;
    if d < |s| {
      assert t[..d] == s[..d];
      IndexOfUnique(t, DOT, d);
      assert ShortName(t)[8 + (|s| - d - 1)] == 65 && ShortName(s)[8 + (|s| - d - 1)] == SPACE;
    } else {
      IndexOfUnique(t, DOT, |t|);
      assert ShortName(t)[|s|] == 65 && ShortName(s)[|s|] == SPACE;
    }
  }

  /** A component is looked up correctly whatever the stray character is, if and only if it is
      of one of these shapes. */
  lemma TailExact(s: seq<byte>)
    ensures TailHarmless(s) <==> forall tail: byte :: ShortName(s + [tail]) == ShortName(s)
  {
    if TailHarmless(s) {
      forall tail: byte
        ensures ShortName(s + [tail]) == ShortName(s)
      {
        TailIgnored(s, tail);
      }
    } else {
      TailMatters(s);
    }
  }

  /** Nothing after the third character of the extension is looked at. */
  lemma ThirdLetter(base: seq<byte>, ext: seq<byte>, rest: seq<byte>)
    requires DOT !in base && |ext| == 3
    ensures ShortName(base + [DOT] + ext + rest) == ShortName(base + [DOT] + ext)
  {
    var s, t := base + [DOT] + ext, base + [DOT] + ext + rest;
    assert s[..|base|] == base && t[..|base|] == base;
    IndexOfUnique(s, DOT, |base|);
    IndexOfUnique(t, DOT, |base|);
  }
}
