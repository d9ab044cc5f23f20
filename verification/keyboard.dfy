/** The keyboard ring buffer: first step by step, for every interleaving of the interrupt handler
    and the polling reader, then as the two routines, and the line reader on top of them. */
module Keyboard {
  import opened Bytes
  import opened Characters

  const BUFFER_SIZE := 1024

  /** Scan codes 0 to 83; the rest of the 128 map to 0. */
  const KEYS: seq<byte> := [0, 27] + DIGITS + [8, 9] + TOP_ROW + [10, 0] + HOME_ROW + [0] + BOTTOM_ROW
    + [0, 42, 0, 32, 0, 0, 0, 0, 0, 0, 0, 0, 0, 0, 0, 0, 0, 0, 0, 0, 45, 0, 0, 0, 43, 0, 0, 0, 0, 0]
  const DIGITS: seq<byte> := [49, 50, 51, 52, 53, 54, 55, 56, 57, 48, 45, 61]
  const TOP_ROW: seq<byte> := [113, 119, 101, 114, 116, 121, 117, 105, 111, 112, 91, 93]
  const HOME_ROW: seq<byte> := [97, 115, 100, 102, 103, 104, 106, 107, 108, 59, 39, 96]
  const BOTTOM_ROW: seq<byte> := [92, 122, 120, 99, 118, 98, 110, 109, 44, 46, 47]

  function Keymap(code: byte): byte
    requires code < 128
  {
    if code < |KEYS| then KEYS[code] else 0
  }

  lemma RowLetters()
    ensures DIGITS == Ascii("1234567890-=") && TOP_ROW == Ascii("qwertyuiop[]")
  {
  }

  lemma LowerRowLetters()
    ensures HOME_ROW == Ascii("asdfghjkl;'`") && BOTTOM_ROW == Ascii("\\zxcvbnm,./")
  {
  }

  /** The table by the rows of the keyboard, from the scan codes of their first keys on. */
  lemma KeyRows()
    ensures |KEYS| == 84 && KEYS[57] == ' ' as int
    ensures KEYS[2..14] == Ascii("1234567890-=")
    ensures KEYS[16..28] == Ascii("qwertyuiop[]")
    ensures KEYS[30..42] == Ascii("asdfghjkl;'`")
    ensures KEYS[43..54] == Ascii("\\zxcvbnm,./")
  {
    RowLetters();
    LowerRowLetters();
    assert KEYS[2..14] == DIGITS && KEYS[16..28] == TOP_ROW && KEYS[30..42] == HOME_ROW && KEYS[43..54] == BOTTOM_ROW;
  }
}

/** Every interleaving of the steps of the interrupt handler and of the reader. */
module KeyboardSteps {
  import opened Bytes
  import opened Keyboard

  datatype Handler =
    | Idle
    | Check(c: byte, next: nat)  // nextHead computed, not yet compared
    | Store(c: byte, next: nat)  // compared: there is room
    | Publish(c: byte, next: nat)  // stored, head not yet moved

  datatype Reader =
    | Poll
    | Load  // head and tail were seen to differ
    | Advance(c: byte)  // character loaded
    | Release(c: byte, next: nat)  // new tail computed, not yet stored

  /** The shared variables, the two program positions, and the history: the characters put into
      the buffer, those handed to the caller, and those dropped. */
  datatype State = State(buffer: seq<byte>, head: nat, tail: nat, handler: Handler, reader: Reader,
                         accepted: seq<byte>, delivered: seq<byte>, dropped: seq<byte>)

  datatype Event = Interrupt(code: byte) | HandlerStep | ReaderStep

  function Initial(buffer: seq<byte>): State {
    State(buffer, 0, 0, Idle, Poll, [], [], [])
  }

  function HandlerNext(s: State): State
    requires |s.buffer| == BUFFER_SIZE && s.head < BUFFER_SIZE
  {
    match s.handler
    case Idle => s
    case Check(c, next) =>
      if next != s.tail then s.(handler := Store(c, next)) else s.(handler := Idle, dropped := s.dropped + [c])
    case Store(c, next) => s.(buffer := s.buffer[s.head := c], handler := Publish(c, next))
    case Publish(c, next) => s.(head := next, handler := Idle, accepted := s.accepted + [c])
  }

  function ReaderNext(s: State): State
    requires |s.buffer| == BUFFER_SIZE && s.tail < BUFFER_SIZE
  {
    match s.reader
    case Poll => if s.head == s.tail then s else s.(reader := Load)
    case Load => s.(reader := Advance(s.buffer[s.tail]))
    case Advance(c) => s.(reader := Release(c, (s.tail + 1) % BUFFER_SIZE))
    case Release(c, next) => s.(tail := next, reader := Poll, delivered := s.delivered + [c])
  }

  /** A key press is taken up when the handler is idle; codes from 128 on are key releases. */
  function Next(s: State, e: Event): State
    requires |s.buffer| == BUFFER_SIZE && s.head < BUFFER_SIZE && s.tail < BUFFER_SIZE
  {
    match e
    case Interrupt(code) =>
      if s.handler.Idle? && code < 128 then s.(handler := Check(Keymap(code), (s.head + 1) % BUFFER_SIZE)) else s
    case HandlerStep => HandlerNext(s)
    case ReaderStep => ReaderNext(s)
  }

  function Pending(s: State): int { |s.accepted| - |s.delivered| }

  /** What every reachable state satisfies. */
  ghost predicate Inv(s: State) {
    && |s.buffer| == BUFFER_SIZE
    && s.head == |s.accepted| % BUFFER_SIZE && s.tail == |s.delivered| % BUFFER_SIZE
    && 0 <= Pending(s) < BUFFER_SIZE
    && s.delivered == s.accepted[..|s.delivered|]
    && (forall k :: |s.delivered| <= k < |s.accepted| ==> s.buffer[k % BUFFER_SIZE] == s.accepted[k])
    && HandlerInv(s) && ReaderInv(s)
  }

  ghost predicate HandlerInv(s: State)
    requires |s.buffer| == BUFFER_SIZE && s.head < BUFFER_SIZE
  {
    match s.handler
    case Idle => true
    case Check(c, next) => next == (s.head + 1) % BUFFER_SIZE
    case Store(c, next) => next == (s.head + 1) % BUFFER_SIZE && Pending(s) < BUFFER_SIZE - 1
    case Publish(c, next) => next == (s.head + 1) % BUFFER_SIZE && Pending(s) < BUFFER_SIZE - 1 && s.buffer[s.head] == c
  }

  ghost predicate ReaderInv(s: State) {
    match s.reader
    case Poll => true
    case Load => Pending(s) > 0
    case Advance(c) => Pending(s) > 0 && s.accepted[|s.delivered|] == c
    case Release(c, next) =>
      Pending(s) > 0 && s.accepted[|s.delivered|] == c && next == (s.tail + 1) % BUFFER_SIZE
  }

  lemma NextIndex(n: nat)
    ensures (n % BUFFER_SIZE + 1) % BUFFER_SIZE == (n + 1) % BUFFER_SIZE
  {
  }

  /** Different unread positions, and the one being written, are different slots. */
  lemma SlotsApart(m: nat, n: nat)
    requires m < n < m + BUFFER_SIZE
    ensures m % BUFFER_SIZE != n % BUFFER_SIZE
  {
  }

  /** The slot about to be written is not one that is still unread. */
  lemma StoreIsSafe(s: State, k: nat)
    requires Inv(s) && s.handler.Store? && |s.delivered| <= k < |s.accepted|
    ensures k % BUFFER_SIZE != s.head
  {
    SlotsApart(k, |s.accepted|);
  }

  /** A character is dropped exactly when 1023 characters are waiting at the check. */
  lemma DropsOnlyWhenFull(s: State)
    requires Inv(s) && s.handler.Check?
    ensures HandlerNext(s).dropped != s.dropped <==> Pending(s) == 1023
  {
    NextIndex(|s.accepted|);
    assert HandlerNext(s).dropped != s.dropped <==> (s.head + 1) % BUFFER_SIZE == s.tail;
    if Pending(s) < BUFFER_SIZE - 1 {
      SlotsApart(|s.delivered|, |s.accepted| + 1);
    }
  }

  lemma CheckKeeps(s: State)
    requires Inv(s) && s.handler.Check?
    ensures Inv(HandlerNext(s))
  {
    NextIndex(|s.accepted|);
    DropsOnlyWhenFull(s);
  }

  lemma StoreKeeps(s: State)
    requires Inv(s) && s.handler.Store?
    ensures Inv(HandlerNext(s))
  {
    var t := HandlerNext(s);
    forall k | |s.delivered| <= k < |s.accepted|
      ensures t.buffer[k % BUFFER_SIZE] == t.accepted[k]
    {
      StoreIsSafe(s, k);
    }
  }

  lemma PublishKeeps(s: State)
    requires Inv(s) && s.handler.Publish?
    ensures Inv(HandlerNext(s))
  {
    var t := HandlerNext(s);
    NextIndex(|s.accepted|);
    assert t.accepted[..|t.delivered|] == s.accepted[..|s.delivered|];
  }

  lemma HandlerKeeps(s: State)
    requires Inv(s)
    ensures Inv(HandlerNext(s))
  {
    match s.handler
    case Idle =>
    case Check(_, _) => CheckKeeps(s);
    case Store(_, _) => StoreKeeps(s);
    case Publish(_, _) => PublishKeeps(s);
  }

  lemma ReaderKeeps(s: State)
    requires Inv(s)
    ensures Inv(ReaderNext(s))
  {
    NextIndex(|s.delivered|);
    if s.reader.Poll? && s.head != s.tail {
      assert Pending(s) > 0;
    } else if s.reader.Release? {
      assert s.accepted[..|s.delivered| + 1] == s.accepted[..|s.delivered|] + [s.accepted[|s.delivered|]];
    }
  }

  lemma StepKeeps(s: State, e: Event)
    requires Inv(s)
    ensures Inv(Next(s, e))
  {
    match e
    case Interrupt(code) =>
    case HandlerStep => HandlerKeeps(s);
    case ReaderStep => ReaderKeeps(s);
  }

  /** The state after a schedule, started with an empty buffer. */
  ghost function Run(buffer: seq<byte>, schedule: seq<Event>): (s: State)
    requires |buffer| == BUFFER_SIZE
    ensures Inv(s)
    decreases |schedule|
  {
    if schedule == [] then Initial(buffer)
    else
      var before := Run(buffer, schedule[..|schedule| - 1]);
      StepKeeps(before, schedule[|schedule| - 1]);
      Next(before, schedule[|schedule| - 1])
  }

  /** Under every interleaving: the characters delivered are a prefix of those accepted, at most
      1023 are waiting, and those are intact in the buffer. */
  lemma EveryRun(buffer: seq<byte>, schedule: seq<Event>)
    requires |buffer| == BUFFER_SIZE
    ensures var s := Run(buffer, schedule);
      && s.delivered <= s.accepted && |s.accepted| - |s.delivered| <= 1023
      && forall k :: |s.delivered| <= k < |s.accepted| ==> s.buffer[k % BUFFER_SIZE] == s.accepted[k]
  {
    var s := Run(buffer, schedule);
    assert s.delivered == s.accepted[..|s.delivered|];
  }

  /** A character whose fate the handler has decided at its check. */
  datatype Decision = Decision(c: byte, kept: bool)

  /** The decision that an event brings, if it is the handler's check. */
  function Decided(s: State, e: Event): seq<Decision> {
    if e.HandlerStep? && s.handler.Check? then [Decision(s.handler.c, s.handler.next != s.tail)] else []
  }

  /** The character that an event makes the handler take up. */
  function Taken(s: State, e: Event): seq<byte> {
    if e.Interrupt? && e.code < 128 && s.handler.Idle? then [Keymap(e.code)] else []
  }

  /** All characters taken up, and all decisions, in order. */
  ghost function AllTaken(buffer: seq<byte>, schedule: seq<Event>): seq<byte>
    requires |buffer| == BUFFER_SIZE
    decreases |schedule|
  {
    if schedule == [] then []
    else
      var n := |schedule| - 1;
      AllTaken(buffer, schedule[..n]) + Taken(Run(buffer, schedule[..n]), schedule[n])
  }

  ghost function AllDecided(buffer: seq<byte>, schedule: seq<Event>): seq<Decision>
    requires |buffer| == BUFFER_SIZE
    decreases |schedule|
  {
    if schedule == [] then []
    else
      var n := |schedule| - 1;
      AllDecided(buffer, schedule[..n]) + Decided(Run(buffer, schedule[..n]), schedule[n])
  }

  function Characters(ds: seq<Decision>): seq<byte> {
    if ds == [] then [] else Characters(ds[..|ds| - 1]) + [ds[|ds| - 1].c]
  }

  /** Those that were kept, or those that were not, in the same order. */
  function Chosen(ds: seq<Decision>, kept: bool): seq<byte> {
    if ds == [] then []
    else
      var last := ds[|ds| - 1];
      Chosen(ds[..|ds| - 1], kept) + if last.kept == kept then [last.c] else []
  }

  lemma OneMore(ds: seq<Decision>, d: Decision)
    ensures Characters(ds + [d]) == Characters(ds) + [d.c]
    ensures Chosen(ds + [d], d.kept) == Chosen(ds, d.kept) + [d.c]
    ensures Chosen(ds + [d], !d.kept) == Chosen(ds, !d.kept)
  {
    assert (ds + [d])[..|ds|] == ds;
  }

  /** What the handler holds: a character not yet checked, or one it is about to publish. */
  function Unchecked(s: State): seq<byte> { if s.handler.Check? then [s.handler.c] else [] }
  function Unpublished(s: State): seq<byte> {
    if s.handler.Store? || s.handler.Publish? then [s.handler.c] else []
  }

  /** The history of the decisions agrees with the state. */
  ghost predicate Accounted(s: State, taken: seq<byte>, ds: seq<Decision>) {
    && taken == Characters(ds) + Unchecked(s)
    && Chosen(ds, true) == s.accepted + Unpublished(s)
    && Chosen(ds, false) == s.dropped
  }

  /** The check moves one character from those not yet checked to the decided ones. */
  lemma CheckAccounts(s: State, taken: seq<byte>, ds: seq<Decision>)
    requires |s.buffer| == BUFFER_SIZE && s.head < BUFFER_SIZE && s.handler.Check? && Accounted(s, taken, ds)
    ensures Accounted(HandlerNext(s), taken, ds + [Decision(s.handler.c, s.handler.next != s.tail)])
  {
    OneMore(ds, Decision(s.handler.c, s.handler.next != s.tail));
  }

  /** The other steps of the handler decide nothing. */
  lemma HandlerAccounts(s: State, taken: seq<byte>, ds: seq<Decision>)
    requires |s.buffer| == BUFFER_SIZE && s.head < BUFFER_SIZE && !s.handler.Check? && Accounted(s, taken, ds)
    ensures Accounted(HandlerNext(s), taken, ds)
  {
    var t := HandlerNext(s);
    assert t.accepted + Unpublished(t) == s.accepted + Unpublished(s);
  }

  /** A key press that is taken up waits for its check. */
  lemma InterruptAccounts(s: State, code: byte, taken: seq<byte>, ds: seq<Decision>)
    requires |s.buffer| == BUFFER_SIZE && s.head < BUFFER_SIZE && s.tail < BUFFER_SIZE && Accounted(s, taken, ds)
    ensures Accounted(Next(s, Interrupt(code)), taken + Taken(s, Interrupt(code)), ds)
  {
    var t, one := Next(s, Interrupt(code)), Taken(s, Interrupt(code));
    assert Unpublished(t) == Unpublished(s);
    assert Unchecked(t) == Unchecked(s) + one;
  }

  lemma StepAccounts(s: State, e: Event, taken: seq<byte>, ds: seq<Decision>)
    requires |s.buffer| == BUFFER_SIZE && s.head < BUFFER_SIZE && s.tail < BUFFER_SIZE && Accounted(s, taken, ds)
    ensures Accounted(Next(s, e), taken + Taken(s, e), ds + Decided(s, e))
  {
    assert ds + [] == ds && taken + [] == taken;
    match e
    case Interrupt(code) => InterruptAccounts(s, code, taken, ds);
    case HandlerStep =>
      if s.handler.Check? {
        CheckAccounts(s, taken, ds);
      } else {
        HandlerAccounts(s, taken, ds);
      }
    case ReaderStep =>
  }

  /** Under every interleaving the characters taken up, in order, are split by the decisions: the
      accepted ones are those that were kept, in that order, the dropped ones are the others. */
  lemma {:induction false} NothingLost(buffer: seq<byte>, schedule: seq<Event>)
    requires |buffer| == BUFFER_SIZE
    ensures Accounted(Run(buffer, schedule), AllTaken(buffer, schedule), AllDecided(buffer, schedule))
    decreases |schedule|
  {
    if schedule != [] {
      var n := |schedule| - 1;
      var before := schedule[..n];
      NothingLost(buffer, before);
      StepAccounts(Run(buffer, before), schedule[n], AllTaken(buffer, before), AllDecided(buffer, before));
    }
  }

  /** Left alone, the handler takes up a key press and finishes in four steps: it accepts the
      character exactly when fewer than 1023 are waiting. */
  lemma HandlerCompletes(s: State, code: byte)
    requires Inv(s) && s.handler.Idle? && code < 128
    ensures var c := Keymap(code);
      var t := Next(s, Interrupt(code));
      var u := HandlerNext(t);
      if Pending(s) < 1023 then
        var v := HandlerNext(HandlerNext(u));
        v.handler.Idle? && v.accepted == s.accepted + [c] && v.dropped == s.dropped
      else u.handler.Idle? && u.accepted == s.accepted && u.dropped == s.dropped + [c]
  {
    var t := Next(s, Interrupt(code));
    StepKeeps(s, Interrupt(code));
    DropsOnlyWhenFull(t);
  }
}

/** The two routines as they run on one processor, where an interrupt can arrive before each poll. */
module KeyboardQueue {
  import opened Bytes
  import opened Keyboard
  import opened Options
  import KeyboardSteps

  /** The characters accepted from scan codes that arrive in a row while `pending` are waiting. */
  function Admitted(pending: nat, codes: seq<byte>): seq<byte>
    decreases |codes|
  {
    if codes == [] then []
    else if codes[0] < 128 && pending < BUFFER_SIZE - 1 then
      [Keymap(codes[0])] + Admitted(pending + 1, codes[1..])
    else Admitted(pending, codes[1..])
  }

  lemma {:induction false} AdmittedOneMore(pending: nat, codes: seq<byte>, code: byte)
    ensures var before := Admitted(pending, codes);
      Admitted(pending, codes + [code])
      == before + if code < 128 && pending + |before| < BUFFER_SIZE - 1 then [Keymap(code)] else []
    decreases |codes|
  {
    if codes == [] {
      assert codes + [code] == [code];
    } else {
      assert (codes + [code])[1..] == codes[1..] + [code];
      if codes[0] < 128 && pending < BUFFER_SIZE - 1 {
        AdmittedOneMore(pending + 1, codes[1..], code);
      } else {
        AdmittedOneMore(pending, codes[1..], code);
      }
    }
  }

  /** What a reader makes of an unbounded queue: before each poll the next burst of scan codes
      arrives. `None` when the queue is empty and no key is ever pressed again. */
  datatype Polled = Polled(c: Option<byte>, queue: seq<byte>, script: seq<seq<byte>>)

  function Poll(queue: seq<byte>, script: seq<seq<byte>>): (r: Polled)
    ensures if script == [] then |r.queue| < |queue| || r.c.None? else |r.script| < |script|
    decreases |script|
  {
    var arrived := queue + if script == [] then [] else Admitted(|queue|, script[0]);
    var rest := if script == [] then [] else script[1..];
    if arrived != [] then Polled(Some(arrived[0]), arrived[1..], rest)
    else if script == [] then Polled(None, [], [])
    else Poll([], rest)
  }

  /** The outcome once the burst before a poll is in. */
  function Settled(queue: seq<byte>, script: seq<seq<byte>>): Polled {
    if queue != [] then Polled(Some(queue[0]), queue[1..], script) else Poll([], script)
  }

  class KeyBuffer {
    const keyBuffer: array<byte>
    var bufferHead: nat
    var bufferTail: nat
    /** The bursts of scan codes still to come, one before each poll. */
    var script: seq<seq<byte>>
    ghost var accepted: seq<byte>
    ghost var delivered: seq<byte>

    ghost predicate Valid()
      reads this, keyBuffer
    {
      && keyBuffer.Length == BUFFER_SIZE
      && |delivered| <= |accepted| < |delivered| + BUFFER_SIZE
      && bufferHead == |accepted| % BUFFER_SIZE && bufferTail == |delivered| % BUFFER_SIZE
      && delivered == accepted[..|delivered|]
      && forall k :: |delivered| <= k < |accepted| ==> keyBuffer[k % BUFFER_SIZE] == accepted[k]
    }

    /** The characters waiting. */
    ghost function Contents(): seq<byte>
      reads this, keyBuffer
      requires Valid()
    {
      accepted[|delivered|..]
    }

    constructor (script: seq<seq<byte>>)
      ensures Valid() && accepted == [] && delivered == [] && this.script == script && fresh(keyBuffer)
    {
      keyBuffer := new byte[BUFFER_SIZE];
      bufferHead, bufferTail := 0, 0;
      this.script := script;
      accepted, delivered := [], [];
    }

    method KeyboardHandler(ioCode: byte)
      requires Valid()
      modifies `bufferHead, `accepted, keyBuffer
      ensures Valid()
      ensures accepted == old(accepted) + Admitted(old(|Contents()|), [ioCode])
    {
      assert [ioCode][1..] == [];
      if ioCode < 128 {
        var c := Keymap(ioCode);
        var nextHead := (bufferHead + 1) % BUFFER_SIZE;
        RoomAsSeen();
        if nextHead != bufferTail {
          Enter(c, nextHead);
        }
      }
    }

    method Enter(c: byte, nextHead: nat)
      requires Valid() && |Contents()| < BUFFER_SIZE - 1 && nextHead == (bufferHead + 1) % BUFFER_SIZE
      modifies `bufferHead, `accepted, keyBuffer
      ensures Valid() && accepted == old(accepted) + [c]
    {
      ghost var n := |accepted|;
      KeyboardSteps.NextIndex(n);
      forall k | |delivered| <= k < n
        ensures k % BUFFER_SIZE != n % BUFFER_SIZE
      {
        KeyboardSteps.SlotsApart(k, n);
      }
      keyBuffer[bufferHead] := c;
      bufferHead := nextHead;
      accepted := accepted + [c];
    }

    lemma RoomAsSeen()
      requires Valid()
      ensures (bufferHead + 1) % BUFFER_SIZE != bufferTail <==> |Contents()| < BUFFER_SIZE - 1
    {
      KeyboardSteps.NextIndex(|accepted|);
      if |Contents()| < BUFFER_SIZE - 1 {
        KeyboardSteps.SlotsApart(|delivered|, |accepted| + 1);
      }
    }

    /** The interrupts that arrive before one poll. */
    method Arrive(codes: seq<byte>)
      requires Valid()
      modifies `bufferHead, `accepted, keyBuffer
      ensures Valid()
      ensures accepted == old(accepted) + Admitted(old(|Contents()|), codes)
    {
      for i := 0 to |codes|
        invariant Valid()
        invariant accepted == old(accepted) + Admitted(old(|Contents()|), codes[..i])
      {
        AdmittedOneMore(old(|Contents()|), codes[..i], codes[i]);
        assert codes[..i + 1] == codes[..i] + [codes[i]];
        assert [codes[i]][1..] == [];
        KeyboardHandler(codes[i]);
      }
      assert codes[..|codes|] == codes;
    }

    /** `volatile` reads: the queue is polled until it is seen to hold something. */
    method ReadChar() returns (c: Option<byte>)
      requires Valid()
      modifies this, keyBuffer
      ensures Valid()
      ensures Polled(c, Contents(), script) == Poll(old(Contents()), old(script))
      ensures old(accepted) <= accepted
      ensures delivered == old(delivered) + if c.Some? then [c.value] else []
      ensures c.None? ==> script == [] && accepted == delivered
    {
      Burst();
      while bufferHead == bufferTail
        invariant Valid() && delivered == old(delivered) && old(accepted) <= accepted
        invariant Settled(Contents(), script) == Poll(old(Contents()), old(script))
        decreases |script|
      {
        Distinct();
        if script == [] {
          return None;
        }
        Burst();
      }
      Distinct();
      var key := Remove();
      c := Some(key);
    }

    method Burst()
      requires Valid()
      modifies `bufferHead, `accepted, `script, keyBuffer
      ensures Valid() && old(accepted) <= accepted
      ensures script == if old(script) == [] then [] else old(script)[1..]
      ensures Settled(Contents(), script) == Poll(old(Contents()), old(script))
    {
      ghost var queue, bursts := Contents(), script;
      if script != [] {
        Arrive(script[0]);
        script := script[1..];
      }
      assert Settled(Contents(), script) == Poll(queue, bursts);
    }

    method Remove() returns (c: byte)
      requires Valid() && Contents() != []
      modifies `bufferTail, `delivered
      ensures Valid() && c == old(Contents())[0] && delivered == old(delivered) + [c]
      ensures Contents() == old(Contents())[1..]
    {
      KeyboardSteps.NextIndex(|delivered|);
      c := keyBuffer[bufferTail];
      bufferTail := (bufferTail + 1) % BUFFER_SIZE;
      assert accepted[..|delivered| + 1] == delivered + [accepted[|delivered|]];
      delivered := delivered + [accepted[|delivered|]];
    }

    lemma Distinct()
      requires Valid()
      ensures bufferHead == bufferTail <==> Contents() == []
    {
      if |delivered| < |accepted| {
        KeyboardSteps.SlotsApart(|delivered|, |accepted|);
      }
    }
  }
}

/** The routines that run without being interrupted halfway are some of the interleavings. */
module KeyboardSchedules {
  import opened Bytes
  import opened Keyboard
  import opened KeyboardQueue
  import opened KeyboardSteps

  /** The state after some events. */
  ghost function After(s: State, events: seq<Event>): (t: State)
    requires Inv(s)
    ensures Inv(t)
    decreases |events|
  {
    if events == [] then s
    else
      StepKeeps(s, events[0]);
      After(Next(s, events[0]), events[1..])
  }

  lemma {:induction false} AfterJoin(s: State, a: seq<Event>, b: seq<Event>)
    requires Inv(s)
    ensures After(s, a + b) == After(After(s, a), b)
    decreases |a|
  {
    if a == [] {
      assert a + b == b;
    } else {
      StepKeeps(s, a[0]);
      var joined := a + b;
      assert joined[0] == a[0] && joined[1..] == a[1..] + b;
      AfterJoin(Next(s, a[0]), a[1..], b);
    }
  }

  lemma AfterOne(s: State, e: Event)
    requires Inv(s)
    ensures Inv(Next(s, e)) && After(s, [e]) == Next(s, e)
  {
    StepKeeps(s, e);
    assert [e][1..] == [];
  }

  lemma AfterCons(s: State, e: Event, rest: seq<Event>)
    requires Inv(s)
    ensures Inv(Next(s, e)) && After(s, [e] + rest) == After(Next(s, e), rest)
  {
    AfterOne(s, e);
    AfterJoin(s, [e], rest);
  }

  lemma AfterFour(s: State, a: Event, b: Event, c: Event, d: Event)
    requires Inv(s)
    ensures Inv(Next(s, a)) && Inv(Next(Next(s, a), b)) && Inv(Next(Next(Next(s, a), b), c))
    ensures After(s, [a, b, c, d]) == Next(Next(Next(Next(s, a), b), c), d)
  {
    AfterCons(s, a, [b, c, d]);
    AfterCons(Next(s, a), b, [c, d]);
    AfterCons(Next(Next(s, a), b), c, [d]);
    AfterOne(Next(Next(Next(s, a), b), c), d);
    assert [a, b, c, d] == [a] + [b, c, d] && [b, c, d] == [b] + [c, d] && [c, d] == [c] + [d];
  }

  lemma RunOne(buffer: seq<byte>, schedule: seq<Event>, e: Event)
    requires |buffer| == BUFFER_SIZE
    ensures Run(buffer, schedule + [e]) == Next(Run(buffer, schedule), e)
  {
    var longer := schedule + [e];
    assert longer[..|schedule|] == schedule;
  }

  lemma MoveOne(a: seq<Event>, b: seq<Event>)
    requires b != []
    ensures a + b == a + [b[0]] + b[1..]
  {
  }

  /** A schedule can be continued. */
  lemma {:induction false} RunJoin(buffer: seq<byte>, schedule: seq<Event>, events: seq<Event>)
    requires |buffer| == BUFFER_SIZE
    ensures Run(buffer, schedule + events) == After(Run(buffer, schedule), events)
    decreases |events|
  {
    if events == [] {
      assert schedule + events == schedule;
    } else {
      var longer, rest := schedule + [events[0]], events[1..];
      RunOne(buffer, schedule, events[0]);
      RunJoin(buffer, longer, rest);
      MoveOne(schedule, events);
    }
  }

  /** Neither routine is halfway through. */
  predicate Quiet(s: State) { s.handler.Idle? && s.reader.Poll? }

  ghost function Waiting(s: State): seq<byte>
    requires Inv(s)
  {
    s.accepted[|s.delivered|..]
  }

  /** The handler from start to end; steps of an idle handler do nothing. */
  function Press(code: byte): seq<Event> { [Interrupt(code), HandlerStep, HandlerStep, HandlerStep] }

  lemma PressIs(s: State, code: byte)
    requires Inv(s) && Quiet(s)
    ensures var t := After(s, Press(code));
      Quiet(t) && t.delivered == s.delivered && t.accepted == s.accepted + Admitted(|Waiting(s)|, [code])
  {
    AfterFour(s, Interrupt(code), HandlerStep, HandlerStep, HandlerStep);
    assert [code][1..] == [];
    if code < 128 {
      HandlerCompletes(s, code);
    }
  }

  function Presses(codes: seq<byte>): seq<Event> {
    if codes == [] then [] else Presses(codes[..|codes| - 1]) + Press(codes[|codes| - 1])
  }

  lemma {:induction false} PressesAre(s: State, codes: seq<byte>)
    requires Inv(s) && Quiet(s)
    ensures var t := After(s, Presses(codes));
      Quiet(t) && t.delivered == s.delivered && t.accepted == s.accepted + Admitted(|Waiting(s)|, codes)
    decreases |codes|
  {
    if codes != [] {
      var front, last := codes[..|codes| - 1], codes[|codes| - 1];
      PressesAre(s, front);
      AfterJoin(s, Presses(front), Press(last));
      PressIs(After(s, Presses(front)), last);
      AdmittedOneMore(|Waiting(s)|, front, last);
      assert [last][1..] == [] && codes == front + [last];
    }
  }

  const TAKE: seq<Event> := [ReaderStep, ReaderStep, ReaderStep, ReaderStep]

  lemma TakeIs(s: State)
    requires Inv(s) && Quiet(s) && Waiting(s) != []
    ensures var t := After(s, TAKE);
      Quiet(t) && t.accepted == s.accepted && t.delivered == s.delivered + [Waiting(s)[0]]
  {
    SlotsApart(|s.delivered|, |s.accepted|);
    AfterFour(s, ReaderStep, ReaderStep, ReaderStep, ReaderStep);
  }

  /** The burst before a poll. */
  lemma BurstIs(s: State, script: seq<seq<byte>>) returns (events: seq<Event>)
    requires Inv(s) && Quiet(s)
    ensures var t := After(s, events);
      && Quiet(t) && t.delivered == s.delivered && s.accepted <= t.accepted
      && Waiting(t) == Waiting(s) + if script == [] then [] else Admitted(|Waiting(s)|, script[0])
  {
    events := [];
    if script == [] {
      assert Waiting(s) + [] == Waiting(s);
    } else {
      events := Presses(script[0]);
      PressesAre(s, script[0]);
      DropJoin(s.accepted, Admitted(|Waiting(s)|, script[0]), |s.delivered|);
    }
  }

  lemma DropJoin(a: seq<byte>, b: seq<byte>, n: nat)
    requires n <= |a|
    ensures (a + b)[n..] == a[n..] + b
  {
  }

  /** A character taken out. */
  lemma TakenIs(s: State)
    requires Inv(s) && Quiet(s) && Waiting(s) != []
    ensures var t := After(s, TAKE);
      && Quiet(t) && t.accepted == s.accepted && t.delivered == s.delivered + [Waiting(s)[0]]
      && Waiting(t) == Waiting(s)[1..]
  {
    TakeIs(s);
  }

  /** What the uninterrupted reader makes of the queue, bursts arriving before its polls, is what
      the interrupted one makes of it on some schedule. */
  lemma {:induction false} PollIsSchedule(s: State, script: seq<seq<byte>>) returns (events: seq<Event>)
    requires Inv(s) && Quiet(s)
    ensures var p, t := KeyboardQueue.Poll(Waiting(s), script), After(s, events);
      && Quiet(t) && Waiting(t) == p.queue && s.accepted <= t.accepted
      && t.delivered == s.delivered + if p.c.Some? then [p.c.value] else []
    decreases |script|
  {
    events := BurstIs(s, script);
    var t := After(s, events);
    if Waiting(t) != [] {
      TakenIs(t);
      AfterJoin(s, events, TAKE);
      events := events + TAKE;
    } else if script != [] {
      assert Waiting(s) == [];
      var more := PollIsSchedule(t, script[1..]);
      AfterJoin(s, events, more);
      events := events + more;
    }
  }

  /** After any schedule that leaves neither routine halfway through, the outcome of `ReadChar` is
      reached by continuing the schedule: what holds of every interleaving holds of `ReadChar`. */
  lemma ReadCharIsSchedule(buffer: seq<byte>, schedule: seq<Event>, script: seq<seq<byte>>) returns (events: seq<Event>)
    requires |buffer| == BUFFER_SIZE && Quiet(Run(buffer, schedule))
    ensures var s, t := Run(buffer, schedule), Run(buffer, schedule + events);
      var p := KeyboardQueue.Poll(Waiting(s), script);
      && Quiet(t) && Waiting(t) == p.queue && s.accepted <= t.accepted
      && t.delivered == s.delivered + if p.c.Some? then [p.c.value] else []
  {
    events := PollIsSchedule(Run(buffer, schedule), script);
    RunJoin(buffer, schedule, events);
  }
}
