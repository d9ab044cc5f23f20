/** The line reader `fgets`: it edits a line in place while the keys come in. */
module Lines {
  import opened Bytes
  import opened Characters
  import opened KeyboardQueue
  import Keyboard
  import KeyboardSteps

  /** The line as a stack: a backspace pops, and is ignored when there is nothing to pop. */
  function Edit(keys: seq<byte>): (line: seq<byte>)
    ensures |line| <= |keys|
    ensures BACKSPACE !in line
  {
    if keys == [] then []
    else
      var line, c := Edit(keys[..|keys| - 1]), keys[|keys| - 1];
      if c != BACKSPACE then line + [c]
      else if line == [] then []
      else line[..|line| - 1]
  }

  predicate Ends(c: byte) { c == NEWLINE || c == RETURN }

  /** Enter, scan code 28, is the only key that ends a line. */
  lemma EnterEnds(code: byte)
    requires code < 128
    ensures Ends(Keyboard.Keymap(code)) <==> code == 28
  {
    NewlineKey(code);
    NoReturnKey(code);
  }

  lemma NewlineKey(code: byte)
    requires code < 128
    ensures Keyboard.Keymap(code) == 10 <==> code == 28
  {
  }

  lemma NoReturnKey(code: byte)
    requires code < 128
    ensures Keyboard.Keymap(code) != 13
  {
  }

  /** The key with scan code 14 is the only one that erases. */
  lemma BackspaceErases(code: byte)
    requires code < 128
    ensures Keyboard.Keymap(code) == BACKSPACE <==> code == 14
  {
  }

  /** Enough keys for a line of at most `room` characters. */
  predicate Complete(keys: seq<byte>, room: nat) {
    |Edit(keys)| >= room || (keys != [] && Ends(keys[|keys| - 1]))
  }

  ghost predicate NoneBefore(keys: seq<byte>, room: nat) {
    forall k :: 0 <= k < |keys| ==> !Complete(keys[..k], room)
  }

  lemma NoneBeforeExtends(keys: seq<byte>, room: nat, c: byte)
    requires NoneBefore(keys, room) && !Complete(keys, room)
    ensures NoneBefore(keys + [c], room)
  {
    forall k | 0 <= k < |keys + [c]|
      ensures !Complete((keys + [c])[..k], room)
    {
      assert (keys + [c])[..k] == keys[..k];
      assert keys[..|keys|] == keys;
    }
  }

  lemma EditStep(keys: seq<byte>, c: byte)
    ensures Edit(keys + [c]) ==
      if c != BACKSPACE then Edit(keys) + [c]
      else if Edit(keys) == [] then [] else Edit(keys)[..|Edit(keys)| - 1]
  {
    assert (keys + [c])[..|keys|] == keys;
  }

  predicate IsPiece(stream: seq<byte>, n: nat, room: nat)
    requires n <= |stream|
  {
    Complete(stream[..n], room) && forall k :: 0 <= k < n ==> !Complete(stream[..k], room)
  }

  /** A stream holding a line end starts with exactly one piece that makes up a line: a reader
      never waits for ever, and what it takes is determined by the stream. */
  lemma {:induction false} PieceUnique(stream: seq<byte>, room: nat) returns (n: nat)
    requires exists k :: 0 <= k < |stream| && Ends(stream[k])
    ensures n <= |stream| && IsPiece(stream, n, room)
    ensures forall m :: 0 <= m <= |stream| && IsPiece(stream, m, room) ==> m == n
    ensures NoneBefore(stream[..n], room)
  {
    n := 0;
    while !Complete(stream[..n], room)
      invariant n <= |stream| && forall k :: 0 <= k < n ==> !Complete(stream[..k], room)
      invariant forall k :: 0 <= k < n && !Complete(stream[..n], room) ==> !Ends(stream[k])
      decreases |stream| - n
    {
      assert stream[..n + 1][n] == stream[n];
      assert Ends(stream[n]) ==> Complete(stream[..n + 1], room);
      n := n + 1;
    }
    forall k | 0 <= k < n
      ensures !Complete(stream[..n][..k], room)
    {
      assert stream[..n][..k] == stream[..k];
    }
  }

  /** Whatever the interleaving of handler and reader, the line made of the characters delivered
      is the line made of those accepted: the same piece, with the same edited text. */
  lemma LineOfRun(buffer: seq<byte>, schedule: seq<KeyboardSteps.Event>, from: nat, n: nat, room: nat)
    requires |buffer| == Keyboard.BUFFER_SIZE && from + n <= |KeyboardSteps.Run(buffer, schedule).delivered|
    ensures var s := KeyboardSteps.Run(buffer, schedule);
      && |s.delivered| <= |s.accepted|
      && (IsPiece(s.delivered[from..], n, room) <==> IsPiece(s.accepted[from..], n, room))
      && Edit(s.delivered[from..][..n]) == Edit(s.accepted[from..][..n])
  {
    KeyboardSteps.EveryRun(buffer, schedule);
    var s := KeyboardSteps.Run(buffer, schedule);
    var a, b := s.delivered[from..], s.accepted[from..];
    assert a == b[..|a|];
    assert a[..n] == b[..n];
    forall k | 0 <= k < n
      ensures a[..k] == b[..k]
    {
    }
  }

  /** A text that fits, ended by a newline, is a line, and the newline is part of it. */
  lemma TypedLine(stream: seq<byte>, n: nat, room: nat)
    requires n < |stream| && n < room && stream[n] == 10
    requires 8 !in stream[..n] && 10 !in stream[..n] && 13 !in stream[..n]
    ensures IsPiece(stream, n + 1, room) && Edit(stream[..n + 1]) == stream[..n + 1]
  {
    var text, keys := stream[..n], stream[..n + 1];
    assert keys == text + [10];
    EditPlain(keys);
    forall k: nat | k < n + 1
      ensures !Complete(stream[..k], room)
    {
      PrefixPlain(text, k);
      assert stream[..k] == text[..k];
      NotYet(text[..k], room);
    }
  }

  lemma PrefixPlain(text: seq<byte>, k: nat)
    requires k <= |text| && 8 !in text && 10 !in text && 13 !in text
    ensures 8 !in text[..k] && 10 !in text[..k] && 13 !in text[..k]
  {
  }

  lemma NotYet(text: seq<byte>, room: nat)
    requires |text| < room && 8 !in text && 10 !in text && 13 !in text
    ensures !Complete(text, room)
  {
    EditPlain(text);
    assert text != [] ==> text[|text| - 1] in text;
  }

  /** A typed character followed by a backspace leaves no trace. */
  lemma {:induction false} EditCancels(before: seq<byte>, c: byte, after: seq<byte>)
    requires c != BACKSPACE
    ensures Edit(before + [c, BACKSPACE] + after) == Edit(before + after)
    decreases |after|
  {
    var keys := before + [c, BACKSPACE] + after;
    if after == [] {
      assert keys[..|keys| - 1] == before + [c] && before + after == before;
      assert (before + [c])[..|before|] == before;
    } else {
      var n := |after| - 1;
      EditCancels(before, c, after[..n]);
      assert keys[..|keys| - 1] == before + [c, BACKSPACE] + after[..n];
      assert (before + after)[..|before + after| - 1] == before + after[..n];
    }
  }

  /** A backspace at the start of a line is ignored. */
  lemma {:induction false} EditIgnoresLeading(after: seq<byte>)
    ensures Edit([BACKSPACE] + after) == Edit(after)
    decreases |after|
  {
    var keys := [BACKSPACE] + after;
    if after == [] {
      assert keys == [BACKSPACE];
    } else {
      var n := |after| - 1;
      EditIgnoresLeading(after[..n]);
      assert keys[..|keys| - 1] == [BACKSPACE] + after[..n];
    }
  }

  lemma {:induction false} EditPlain(keys: seq<byte>)
    requires BACKSPACE !in keys
    ensures Edit(keys) == keys
    decreases |keys|
  {
    if keys != [] {
      EditPlain(keys[..|keys| - 1]);
    }
  }

  /** `Null` is the null pointer; `Waiting` means that the reader polls for ever, because no more
      keys are pressed. */
  datatype Outcome = Null | Line | Waiting

  /** What the line reader leaves behind: `keys` are the characters it took from the queue. */
  ghost predicate Holds(r: Outcome, str: seq<byte>, keys: seq<byte>, room: nat) {
    && NoneBefore(keys, room)
    && (r == Waiting <==> !Complete(keys, room))
    && (r == Null ==> Edit(keys) == [])
    && (r == Line ==> Edit(keys) != [])
    && (r != Waiting ==> Edit(keys) + [0] <= str)
  }

  /** The first `i` bytes of the buffer are the line that `keys` stand for, and no more keys were
      taken than the line needs. */
  ghost predicate Editing(str: seq<byte>, n: nat, i: nat, ended: bool, keys: seq<byte>) {
    && 0 < n <= |str| && i <= n - 1 && str[..i] == Edit(keys)
    && NoneBefore(keys, n - 1) && (Complete(keys, n - 1) <==> i == n - 1 || ended)
  }

  /** What one key does to the buffer. */
  method EditInPlace(str: array<byte>, n: nat, i: nat, c: byte, ghost keys: seq<byte>)
    returns (next: nat, ended: bool, ghost keys': seq<byte>)
    requires Editing(str[..], n, i, false, keys) && i < n - 1
    modifies str
    ensures keys' == keys + [c] && Editing(str[..], n, next, ended, keys') && str[n..] == old(str[n..])
  {
    NoneBeforeExtends(keys, n - 1, c);
    EditStep(keys, c);
    keys' := keys + [c];
    next, ended := i, Ends(c);
    if c == BACKSPACE {
      if i > 0 {
        next := i - 1;
      }
    } else {
      str[i] := c;
      next := i + 1;
    }
  }

  /** The terminator, and what is returned. */
  method Terminate(str: array<byte>, n: nat, i: nat, ended: bool, ghost keys: seq<byte>) returns (r: Outcome)
    requires Editing(str[..], n, i, ended, keys) && (i == n - 1 || ended)
    modifies str
    ensures Holds(r, str[..n], keys, n - 1) && r != Waiting && str[n..] == old(str[n..])
  {
    str[i] := 0;
    assert str[..i + 1] == Edit(keys) + [0];
    r := if i > 0 then Line else Null;
  }

  /** `str` and `n` as the caller passed them. The line, edited and terminated, is within the
      first `n` bytes of `str`; the keys taken are the next ones the queue accepted. */
  method Fgets(queue: KeyBuffer, str: array?<byte>, n: int) returns (r: Outcome)
    requires queue.Valid() && (str != null ==> n <= str.Length && str != queue.keyBuffer)
    modifies queue, queue.keyBuffer
    modifies if str == null then {} else {str}
    ensures queue.Valid() && old(queue.accepted) <= queue.accepted
    ensures old(queue.delivered) <= queue.delivered
    ensures str == null || n <= 0 ==>
      r == Null && queue.delivered == old(queue.delivered) && queue.script == old(queue.script)
      && (str != null ==> str[..] == old(str[..]))
    ensures str != null && n > 0 ==>
      && Holds(r, str[..n], queue.delivered[|old(queue.delivered)|..], n - 1)
      && str[n..] == old(str[n..])
      && (r == Waiting ==> queue.script == [] && queue.delivered == queue.accepted)
  {
    if str == null || n <= 0 {
      return Null;
    }
    ghost var taken := queue.delivered;
    ghost var keys: seq<byte> := [];
    var i, ended := 0, false;
    while i < n - 1 && !ended
      invariant queue.Valid() && old(queue.accepted) <= queue.accepted && queue.delivered == taken + keys
      invariant 0 <= i && Editing(str[..], n, i, ended, keys) && str[n..] == old(str[n..])
      decreases |queue.script|, |queue.Contents()|
    {
      var c := queue.ReadChar();
      if c.None? {
        return Waiting;
      }
      i, ended, keys := EditInPlace(str, n, i, c.value, keys);
    }
    r := Terminate(str, n, i, ended, keys);
    assert queue.delivered[|taken|..] == keys;
  }
}
