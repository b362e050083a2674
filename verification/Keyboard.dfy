// The keyboard driver: the scancode automaton of the interrupt handler, and
// the ring it shares with a reader that can be interrupted between any two of
// its steps.
module Keyboard {
  import opened Words

  const SIZE: nat := 128
  const EXTENDED: byte := 0xE0
  const LEFT_SHIFT: byte := 0x2A
  const RIGHT_SHIFT: byte := 0x36
  const CAPS_LOCK: byte := 0x3A
  const ALT: byte := 0x38
  const ALT_RELEASE: byte := 0xB8

  // The three character tables of a layout; zero stands for no character.
  datatype Layout = Layout(plain: seq<byte>, shifted: seq<byte>, altgr: seq<byte>) {
    predicate Valid() {
      |plain| == 128 && |shifted| == 128 && |altgr| == 128
    }
  }

  predicate IsLetter(c: byte) {
    0x61 <= c <= 0x7A || 0x41 <= c <= 0x5A
  }

  // c ^= 0x20 on a letter.
  function FlipCase(c: byte): byte {
    if 0x61 <= c <= 0x7A then c - 0x20 else if 0x41 <= c <= 0x5A then c + 0x20 else c
  }

  // ---- Reference translation: what a history of scancodes means -------------

  predicate IsShiftPress(h: seq<byte>, i: nat)
    requires i < |h|
  {
    h[i] == LEFT_SHIFT || h[i] == RIGHT_SHIFT
  }

  predicate IsShiftRelease(h: seq<byte>, i: nat)
    requires i < |h|
  {
    h[i] == LEFT_SHIFT + 0x80 || h[i] == RIGHT_SHIFT + 0x80
  }

  predicate IsAltGr(h: seq<byte>, i: nat, code: byte)
    requires i < |h|
  {
    h[i] == code && i > 0 && h[i - 1] == EXTENDED
  }

  // Shift is down when the last shift event is a press, of either key.
  predicate ShiftDown(h: seq<byte>) {
    exists i :: 0 <= i < |h| && IsShiftPress(h, i) && forall j :: i < j < |h| ==> !IsShiftRelease(h, j)
  }

  // AltGr is down when the last prefixed Alt event is a press.
  predicate AltGrDown(h: seq<byte>) {
    exists i :: 0 <= i < |h| && IsAltGr(h, i, ALT) && forall j :: i < j < |h| ==> !IsAltGr(h, j, ALT_RELEASE)
  }

  // Caps lock is on after an odd number of presses.
  function CapsPresses(h: seq<byte>): nat {
    if |h| == 0 then 0
    else CapsPresses(h[..|h| - 1]) + if h[|h| - 1] == CAPS_LOCK then 1 else 0
  }

  predicate PrefixPending(h: seq<byte>) {
    |h| > 0 && h[|h| - 1] == EXTENDED
  }

  // What a table entry comes out as: caps lock flips letters, zero is nothing.
  function Character(entry: byte, caps: bool): Option<byte> {
    var c := if caps && IsLetter(entry) then FlipCase(entry) else entry;
    if c == 0 then None else Some(c)
  }

  // The character a scancode types after a history, if any.
  function Typed(layout: Layout, h: seq<byte>, code: byte): Option<byte>
    requires layout.Valid()
  {
    if code >= 0x80 || code == LEFT_SHIFT || code == RIGHT_SHIFT || code == CAPS_LOCK then None
    else if code == ALT && PrefixPending(h) then None
    else
      var table := if AltGrDown(h) then layout.altgr else if ShiftDown(h) then layout.shifted else layout.plain;
      Character(table[code], CapsPresses(h) % 2 == 1)
  }

  // Everything a history types.
  function Translation(layout: Layout, h: seq<byte>): seq<byte>
    requires layout.Valid()
  {
    if |h| == 0 then []
    else
      var front := h[..|h| - 1];
      Translation(layout, front) + Listed(Typed(layout, front, h[|h| - 1]))
  }

  function Listed(c: Option<byte>): seq<byte> {
    match c
    case None => []
    case Some(value) => [value]
  }

  // A sequence without the elements at some positions.
  ghost function Without(s: seq<byte>, drops: set<nat>): seq<byte> {
    if |s| == 0 then []
    else Without(s[..|s| - 1], drops) + if |s| - 1 in drops then [] else [s[|s| - 1]]
  }

  ghost predicate InRange(drops: set<nat>, n: nat) {
    forall k :: k in drops ==> k < n
  }

  lemma {:induction false} DropsBeyond(s: seq<byte>, drops: set<nat>, k: nat)
    requires k >= |s|
    ensures Without(s, drops + {k}) == Without(s, drops)
  {
    if |s| > 0 {
      DropsBeyond(s[..|s| - 1], drops, k);
    }
  }

  // One more scancode, with its character dropped or kept.
  lemma OneMore(layout: Layout, h: seq<byte>, code: byte, drops: set<nat>, full: bool)
    requires layout.Valid() && InRange(drops, |Translation(layout, h)|)
    ensures var c, all := Typed(layout, h, code), Translation(layout, h);
      var drops' := if full && c.Some? then drops + {|all|} else drops;
      && Translation(layout, h + [code]) == all + Listed(c)
      && Without(Translation(layout, h + [code]), drops')
         == Without(all, drops) + (if full then [] else Listed(c))
      && InRange(drops', |Translation(layout, h + [code])|)
  {
    var c, all := Typed(layout, h, code), Translation(layout, h);
    assert (h + [code])[..|h|] == h;
    assert Translation(layout, h + [code]) == all + Listed(c);
    DropsBeyond(all, drops, |all|);
    if c.Some? {
      assert (all + [c.value])[..|all|] == all;
    } else {
      assert all + Listed(c) == all;
    }
  }

  lemma CapsStep(h: seq<byte>, code: byte)
    ensures CapsPresses(h + [code]) == CapsPresses(h) + if code == 0x3A then 1 else 0
  {
    assert (h + [code])[..|h|] == h;
  }

  lemma ShiftStep(h: seq<byte>, code: byte)
    ensures ShiftDown(h + [code]) ==
            if code == 0x2A || code == 0x36 then true
            else if code == 0xAA || code == 0xB6 then false
            else ShiftDown(h)
  {
    var g := h + [code];
    if code == LEFT_SHIFT || code == RIGHT_SHIFT {
      assert IsShiftPress(g, |h|);
    } else if code == LEFT_SHIFT + 0x80 || code == RIGHT_SHIFT + 0x80 {
      assert IsShiftRelease(g, |h|);
    } else {
      assert forall i :: 0 <= i < |h| ==>
          IsShiftPress(g, i) == IsShiftPress(h, i) && IsShiftRelease(g, i) == IsShiftRelease(h, i);
      assert !IsShiftRelease(g, |h|);
      if ShiftDown(h) {
        var i :| 0 <= i < |h| && IsShiftPress(h, i) && forall j :: i < j < |h| ==> !IsShiftRelease(h, j);
        assert IsShiftPress(g, i);
      }
      if ShiftDown(g) {
        var i :| 0 <= i < |g| && IsShiftPress(g, i) && forall j :: i < j < |g| ==> !IsShiftRelease(g, j);
        assert IsShiftPress(h, i);
      }
    }
  }

  lemma AltGrStep(h: seq<byte>, code: byte)
    ensures AltGrDown(h + [code]) ==
            if |h| > 0 && h[|h| - 1] == 0xE0 && code == 0x38 then true
            else if |h| > 0 && h[|h| - 1] == 0xE0 && code == 0xB8 then false
            else AltGrDown(h)
  {
    var g := h + [code];
    if PrefixPending(h) && code == ALT {
      assert IsAltGr(g, |h|, ALT);
    } else if PrefixPending(h) && code == ALT_RELEASE {
      assert IsAltGr(g, |h|, ALT_RELEASE);
    } else {
      assert forall i :: 0 <= i < |h| ==> IsAltGr(g, i, ALT) == IsAltGr(h, i, ALT);
      assert forall i :: 0 <= i < |h| ==> IsAltGr(g, i, ALT_RELEASE) == IsAltGr(h, i, ALT_RELEASE);
      assert !IsAltGr(g, |h|, ALT_RELEASE);
      if AltGrDown(h) {
        var i :| 0 <= i < |h| && IsAltGr(h, i, ALT) && forall j :: i < j < |h| ==> !IsAltGr(h, j, ALT_RELEASE);
        assert IsAltGr(g, i, ALT);
      }
      if AltGrDown(g) {
        var i :| 0 <= i < |g| && IsAltGr(g, i, ALT) && forall j :: i < j < |g| ==> !IsAltGr(g, j, ALT_RELEASE);
        assert IsAltGr(h, i, ALT);
      }
    }
  }

  // The scancodes of keys of their own: no releases, no modifiers, and no Alt
  // behind a prefix.
  predicate TypesKey(h: seq<byte>, code: byte) {
    && code < 0x80 && code != 0x2A && code != 0x36 && code != 0x3A
    && !(code == 0x38 && |h| > 0 && h[|h| - 1] == 0xE0)
  }

  lemma OthersAreSilent(layout: Layout, h: seq<byte>, code: byte)
    requires layout.Valid() && !TypesKey(h, code)
    ensures Typed(layout, h, code) == None
  {
  }

  // What such a key types: what its table says when caps lock has been pressed
  // an even number of times; after an odd number, a letter in the other case
  // and everything else as it is.
  lemma KeyTypes(layout: Layout, h: seq<byte>, code: byte)
    requires layout.Valid() && TypesKey(h, code)
    ensures var entry := (if AltGrDown(h) then layout.altgr else if ShiftDown(h) then layout.shifted
                          else layout.plain)[code];
      var typed := Typed(layout, h, code);
      && (entry == 0 ==> typed == None)
      && (entry != 0 && CapsPresses(h) % 2 == 0 ==> typed == Some(entry))
      && (CapsPresses(h) % 2 == 1 ==>
            && (0x61 <= entry < 0x61 + 26 ==> typed == Some(0x41 + (entry - 0x61)))
            && (0x41 <= entry < 0x41 + 26 ==> typed == Some(0x61 + (entry - 0x41)))
            && (entry != 0 && !(0x61 <= entry < 0x61 + 26) && !(0x41 <= entry < 0x41 + 26) ==> typed == Some(entry)))
  {
    hide AltGrDown, ShiftDown, CapsPresses;
  }

  // Caps lock is what it was two presses before.
  lemma CapsTwice(h: seq<byte>, between: seq<byte>)
    requires 0x3A !in between
    ensures (CapsPresses(h + [0x3A] + between + [0x3A]) - CapsPresses(h)) % 2 == 0
    ensures (CapsPresses(h + [0x3A] + between) - CapsPresses(h)) % 2 == 1
  {
    CapsStep(h, 0x3A);
    NoPresses(h + [0x3A], between);
    CapsStep(h + [0x3A] + between, 0x3A);
    hide CapsPresses;
  }

  lemma {:induction false} NoPresses(h: seq<byte>, more: seq<byte>)
    requires 0x3A !in more
    ensures CapsPresses(h + more) == CapsPresses(h)
  {
    if more == [] {
      assert h + more == h;
    } else {
      var front, last := more[..|more| - 1], more[|more| - 1];
      assert h + more == (h + front) + [last] && last in more;
      NoPresses(h, front);
      CapsStep(h + front, last);
    }
  }

  // ---- The ring --------------------------------------------------------------

  // The characters between tail and head, going round.
  function RingContents(buffer: seq<byte>, tail: nat, head: nat): seq<byte>
    requires |buffer| == SIZE && tail < SIZE && head < SIZE
  {
    if tail <= head then buffer[tail..head] else buffer[tail..] + buffer[..head]
  }

  lemma RingSize(buffer: seq<byte>, tail: nat, head: nat)
    requires |buffer| == SIZE && tail < SIZE && head < SIZE
    ensures |RingContents(buffer, tail, head)| <= SIZE - 1
  {
  }

  lemma RingTail(buffer: seq<byte>, tail: nat, head: nat)
    requires |buffer| == SIZE && tail < SIZE && head < SIZE && tail != head
    ensures RingContents(buffer, (tail + 1) % SIZE, head) == RingContents(buffer, tail, head)[1..]
  {
  }

  lemma RingEmpty(buffer: seq<byte>, tail: nat, head: nat)
    requires |buffer| == SIZE && tail < SIZE && head < SIZE
    ensures |RingContents(buffer, tail, head)| == 0 <==> tail == head
    ensures tail != head ==> RingContents(buffer, tail, head)[0] == buffer[tail]
  {
  }

  // ---- Reference: what a schedule comes to -------------------------------------

  // Where the reader stands in its test, load, advance sequence.
  datatype Reader = Idle | Tested | Loaded(c: byte)

  // A whole interrupt, or one step of the reader.
  datatype Event = Interrupt(code: byte) | ReaderStep

  // All scancodes so far, the characters waiting, those the reader has
  // returned, and the reader.
  datatype World = World(history: seq<byte>, queue: seq<byte>, delivered: seq<byte>, reader: Reader)
  {
    predicate Sound() {
      && |queue| <= 127
      && (reader.Tested? ==> |queue| > 0)
      && (reader.Loaded? ==> |queue| > 0 && reader.c == queue[0])
    }

    predicate Full() {
      |queue| == 127
    }
  }

  const START := World([], [], [], Idle)

  // A character typed is queued unless the queue is full; the reader tests for
  // one, looks at the first, and takes it.
  function Tick(layout: Layout, w: World, e: Event): (w': World)
    requires layout.Valid() && w.Sound()
    ensures w'.Sound()
  {
    match e
    case Interrupt(code) =>
      w.(history := w.history + [code],
         queue := w.queue + if w.Full() then [] else Listed(Typed(layout, w.history, code)))
    case ReaderStep =>
      match w.reader
      case Idle => w.(reader := if |w.queue| > 0 then Tested else Idle)
      case Tested => w.(reader := Loaded(w.queue[0]))
      case Loaded(c) => w.(reader := Idle, delivered := w.delivered + [c], queue := w.queue[1..])
  }

  function Ticks(layout: Layout, w: World, schedule: seq<Event>): (w': World)
    requires layout.Valid() && w.Sound()
    ensures w'.Sound()
  {
    if |schedule| == 0 then w
    else Tick(layout, Ticks(layout, w, schedule[..|schedule| - 1]), schedule[|schedule| - 1])
  }

  // The event types a character that finds the queue full.
  predicate Drops(layout: Layout, w: World, e: Event)
    requires layout.Valid()
  {
    e.Interrupt? && w.Full() && Typed(layout, w.history, e.code).Some?
  }

  // The positions, among all characters typed, of those that did.
  function Dropped(layout: Layout, schedule: seq<Event>): set<nat>
    requires layout.Valid()
  {
    if |schedule| == 0 then {}
    else
      var front, last := schedule[..|schedule| - 1], schedule[|schedule| - 1];
      var w := Ticks(layout, START, front);
      Dropped(layout, front) + if Drops(layout, w, last) then {|Translation(layout, w.history)|} else {}
  }

  // What has been returned and what is waiting are the translation of the
  // scancodes without the characters at these positions.
  ghost predicate Accounted(layout: Layout, w: World, drops: set<nat>)
    requires layout.Valid()
  {
    var all := Translation(layout, w.history);
    w.delivered + w.queue == Without(all, drops) && InRange(drops, |all|)
  }

  lemma InterruptAccounted(layout: Layout, w: World, code: byte, drops: set<nat>)
    requires layout.Valid() && w.Sound() && Accounted(layout, w, drops)
    ensures var at := |Translation(layout, w.history)|;
      var drops' := if Drops(layout, w, Interrupt(code)) then drops + {at} else drops;
      Accounted(layout, Tick(layout, w, Interrupt(code)), drops')
  {
    var more := if w.Full() then [] else Listed(Typed(layout, w.history, code));
    OneMore(layout, w.history, code, drops, w.Full());
    hide Typed, Translation, Without, InRange, Listed;
    assert w.delivered + (w.queue + more) == (w.delivered + w.queue) + more;
  }

  lemma StepAccounted(layout: Layout, w: World, drops: set<nat>)
    requires layout.Valid() && w.Sound() && Accounted(layout, w, drops)
    ensures Accounted(layout, Tick(layout, w, ReaderStep), drops)
  {
    hide Translation, Without, InRange;
    if w.reader.Loaded? {
      assert w.queue == [w.queue[0]] + w.queue[1..];
      assert w.delivered + [w.queue[0]] + w.queue[1..] == w.delivered + w.queue;
    }
  }

  // After any schedule: the characters missing are exactly those that found
  // the queue full.
  lemma {:induction false} AcceptedExactly(layout: Layout, schedule: seq<Event>)
    requires layout.Valid()
    ensures Ticks(layout, START, schedule).history == Scancodes(schedule)
    ensures Accounted(layout, Ticks(layout, START, schedule), Dropped(layout, schedule))
  {
    if |schedule| == 0 {
      NothingYet(layout);
    } else {
      var front, last := schedule[..|schedule| - 1], schedule[|schedule| - 1];
      AcceptedExactly(layout, front);
      LastTick(layout, START, schedule);
      LastDrop(layout, schedule);
      var w, drops := Ticks(layout, START, front), Dropped(layout, front);
      assert drops + {} == drops;
      hide Ticks, Dropped, Accounted, World.Sound, Typed;
      match last {
        case Interrupt(code) => InterruptAccounted(layout, w, code, drops);
        case ReaderStep => StepAccounted(layout, w, drops);
      }
    }
  }

  lemma NothingYet(layout: Layout)
    requires layout.Valid()
    ensures Accounted(layout, START, {})
  {
  }

  lemma LastTick(layout: Layout, w: World, schedule: seq<Event>)
    requires layout.Valid() && w.Sound() && |schedule| > 0
    ensures var front, last := schedule[..|schedule| - 1], schedule[|schedule| - 1];
      Ticks(layout, w, schedule) == Tick(layout, Ticks(layout, w, front), last)
  {
  }

  lemma LastDrop(layout: Layout, schedule: seq<Event>)
    requires layout.Valid() && |schedule| > 0
    ensures var front, last := schedule[..|schedule| - 1], schedule[|schedule| - 1];
      var w := Ticks(layout, START, front);
      Dropped(layout, schedule)
      == Dropped(layout, front) + if Drops(layout, w, last) then {|Translation(layout, w.history)|} else {}
  {
  }

  // A reader that keeps up loses nothing: if no interrupt of the schedule finds
  // the queue full, all that was typed has been returned or is waiting.
  lemma {:induction false} NothingLost(layout: Layout, schedule: seq<Event>)
    requires layout.Valid()
    requires forall n :: 0 <= n < |schedule| && schedule[n].Interrupt? ==> !Ticks(layout, START, schedule[..n]).Full()
    ensures var w := Ticks(layout, START, schedule);
      Dropped(layout, schedule) == {} && w.delivered + w.queue == Translation(layout, Scancodes(schedule))
  {
    NoneDropped(layout, schedule);
    AcceptedExactly(layout, schedule);
    hide Ticks, Dropped, Translation, Without, InRange, Scancodes;
    WithoutNothing(Translation(layout, Scancodes(schedule)));
  }

  lemma {:induction false} NoneDropped(layout: Layout, schedule: seq<Event>)
    requires layout.Valid()
    requires forall n :: 0 <= n < |schedule| && schedule[n].Interrupt? ==> !Ticks(layout, START, schedule[..n]).Full()
    ensures Dropped(layout, schedule) == {}
  {
    if |schedule| > 0 {
      var front := schedule[..|schedule| - 1];
      assert forall n :: 0 <= n < |front| ==> schedule[..n] == front[..n] && schedule[n] == front[n];
      NoneDropped(layout, front);
    }
  }

  lemma {:induction false} WithoutNothing(s: seq<byte>)
    ensures Without(s, {}) == s
  {
    if |s| > 0 {
      WithoutNothing(s[..|s| - 1]);
    }
  }

  ghost function Scancodes(schedule: seq<Event>): seq<byte> {
    if |schedule| == 0 then []
    else
      Scancodes(schedule[..|schedule| - 1])
      + match schedule[|schedule| - 1]
        case Interrupt(code) => [code]
        case ReaderStep => []
  }

  // ---- The driver ---------------------------------------------------------------

  class Driver {
    const buffer: array<byte>
    const layout: Layout
    var head: nat
    var tail: nat
    var shift: bool
    var altgr: bool
    var caps: bool
    var ext: bool
    var reader: Reader
    // All scancodes so far, and the characters the reader has returned.
    ghost var history: seq<byte>
    ghost var delivered: seq<byte>

    // The modifier flags are what the history says.
    ghost predicate Modifiers()
      reads `shift, `altgr, `caps, `ext, `history
    {
      && shift == ShiftDown(history) && altgr == AltGrDown(history)
      && caps == (CapsPresses(history) % 2 == 1) && ext == PrefixPending(history)
    }

    ghost function Ring(): seq<byte>
      requires buffer.Length == SIZE && tail < SIZE && head < SIZE
      reads this, buffer
    {
      RingContents(buffer[..], tail, head)
    }

    ghost function Now(): World
      requires buffer.Length == SIZE && tail < SIZE && head < SIZE
      reads this, buffer
    {
      World(history, Ring(), delivered, reader)
    }

    ghost predicate Valid()
      reads this, buffer
    {
      buffer.Length == SIZE && head < SIZE && tail < SIZE && layout.Valid() && Modifiers() && Now().Sound()
    }

    // keyboard_init with one layout.
    constructor (layout: Layout)
      requires layout.Valid()
      ensures Valid() && this.layout == layout && fresh(buffer) && Now() == START
    {
      this.layout := layout;
      buffer := new byte[SIZE](_ => 0);
      head, tail, shift, altgr, caps, ext := 0, 0, false, false, false, false;
      reader, history, delivered := Idle, [], [];
    }

    // kb_push: one slot stays free, so a full ring holds 127 characters.
    method Push(c: byte)
      requires buffer.Length == SIZE && head < SIZE && tail < SIZE
      modifies `head, buffer
      ensures head < SIZE
      ensures |old(Ring())| < 127 ==> Ring() == old(Ring()) + [c]
      ensures |old(Ring())| >= 127 ==> Ring() == old(Ring()) && head == old(head)
    {
      var next := (head + 1) % SIZE;
      if next != tail {
        buffer[head] := c;
        head := next;
      }
    }

    // The flags part of keyboard_handler; the result is the character table to
    // use, if the scancode is a key of its own.
    method Classify(scancode: byte) returns (table: Option<seq<byte>>)
      requires Modifiers() && layout.Valid()
      modifies `shift, `altgr, `caps, `ext, `history
      ensures history == old(history) + [scancode] && Modifiers()
      ensures table.Some? ==> |table.value| == 128 && scancode < 0x80
      ensures Typed(layout, old(history), scancode) ==
              match table
              case None => None
              case Some(t) => Character(t[scancode], caps)
    {
      ShiftStep(history, scancode);
      AltGrStep(history, scancode);
      CapsStep(history, scancode);
      hide ShiftDown, AltGrDown, CapsPresses;
      ghost var h := history;
      history := history + [scancode];
      if scancode == EXTENDED {
        ext := true;
        return None;
      }
      if scancode >= 0x80 {
        var released := scancode - 0x80;
        if released == LEFT_SHIFT || released == RIGHT_SHIFT {
          shift := false;
        }
        if ext && released == ALT {
          altgr := false;
        }
        ext := false;
        return None;
      }
      if scancode == LEFT_SHIFT || scancode == RIGHT_SHIFT {
        shift, ext := true, false;
        return None;
      }
      if scancode == CAPS_LOCK {
        caps, ext := !caps, false;
        return None;
      }
      if ext && scancode == ALT {
        altgr, ext := true, false;
        return None;
      }
      ext := false;
      table := Some(if altgr then layout.altgr else if shift then layout.shifted else layout.plain);
    }

    // keyboard_handler, run as a whole: interrupts do not interrupt it.
    method Handler(scancode: byte)
      requires Valid()
      modifies `head, `shift, `altgr, `caps, `ext, `history, buffer
      ensures Valid() && Now() == Tick(layout, old(Now()), Interrupt(scancode))
    {
      hide Typed, RingContents, Modifiers, Listed;
      ghost var typed := Typed(layout, history, scancode);
      RingSize(buffer[..], tail, head);
      var table := Classify(scancode);
      PushTyped(table, scancode, typed);
      RingSize(buffer[..], tail, head);
    }

    // The end of keyboard_handler: the character, if there is one, is pushed.
    method PushTyped(table: Option<seq<byte>>, scancode: byte, ghost typed: Option<byte>)
      requires buffer.Length == SIZE && head < SIZE && tail < SIZE
      requires table.Some? ==> |table.value| == 128 && scancode < 0x80
      requires typed == match table
                        case None => None
                        case Some(t) => Character(t[scancode], caps)
      modifies `head, buffer
      ensures head < SIZE
      ensures Ring() == old(Ring()) + if |old(Ring())| >= 127 then [] else Listed(typed)
      ensures |old(Ring())| > 0 ==> |Ring()| > 0 && Ring()[0] == old(Ring())[0]
    {
      hide RingContents, Character;
      ghost var ring := Ring();
      assert ring + [] == ring;
      if table.Some? {
        var c := Character(table.value[scancode], caps);
        if c.Some? {
          Push(c.value);
        }
      }
    }

    // The reader, step by step: is there a character, what is it, move on.
    // keyboard_read gives up on an empty ring, keyboard_getchar tests again.
    method Test() returns (ready: bool)
      requires Valid() && reader.Idle?
      modifies `reader
      ensures Valid() && Now() == Tick(layout, old(Now()), ReaderStep)
      ensures ready == (|Ring()| > 0)
    {
      ready := head != tail;
      reader := if ready then Tested else Idle;
    }

    method Load()
      requires Valid() && reader.Tested?
      modifies `reader
      ensures Valid() && Now() == Tick(layout, old(Now()), ReaderStep)
    {
      RingEmpty(buffer[..], tail, head);
      hide RingContents, Modifiers;
      reader := Loaded(buffer[tail]);
    }

    method Advance() returns (c: byte)
      requires Valid() && reader.Loaded?
      modifies `reader, `tail, `delivered
      ensures Valid() && Now() == Tick(layout, old(Now()), ReaderStep)
      ensures c == old(Ring()[0])
    {
      hide RingContents, Modifiers;
      RingEmpty(buffer[..], tail, head);
      RingTail(buffer[..], tail, head);
      c := reader.c;
      tail := (tail + 1) % SIZE;
      reader := Idle;
      delivered := delivered + [c];
    }

    // The reader's next step, whichever it is.
    method Step()
      requires Valid()
      modifies `reader, `tail, `delivered
      ensures Valid() && Now() == Tick(layout, old(Now()), ReaderStep)
    {
      match reader {
        case Idle => var ready := Test();
        case Tested => Load();
        case Loaded(_) => var c := Advance();
      }
    }

    // Any interleaving of interrupts and reader steps: scancodes, ring,
    // characters returned and reader are what the schedule comes to.
    method Run(schedule: seq<Event>)
      requires Valid()
      modifies this, buffer
      ensures Valid() && Now() == Ticks(layout, old(Now()), schedule)
    {
      hide Modifiers, RingContents, Ticks, Tick, World.Sound;
      ghost var w := Now();
      NoTicks(layout, w);
      for n := 0 to |schedule|
        invariant Valid() && w.Sound() && layout.Valid() && Now() == Ticks(layout, w, schedule[..n])
      {
        assert schedule[..n + 1][..n] == schedule[..n];
        LastTick(layout, w, schedule[..n + 1]);
        match schedule[n] {
          case Interrupt(code) => Handler(code);
          case ReaderStep => Step();
        }
      }
      assert schedule[..|schedule|] == schedule;
    }
  }

  lemma NoTicks(layout: Layout, w: World)
    requires layout.Valid() && w.Sound()
    ensures Ticks(layout, w, []) == w
  {
  }
}
