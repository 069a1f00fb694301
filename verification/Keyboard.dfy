/**
 The keyboard's ring buffer, filled by an interrupt and emptied by `keyboard_getchar`, with the
 interrupt allowed between any two steps of the reader.
 */
module Keyboard {
  import opened Scancodes

  const SIZE := 256

  /** The globals of the keyboard driver. */
  datatype Device = Device(ring: seq<char>, head: int, tail: int, mods: Modifiers) {
    predicate Valid() {
      |ring| == SIZE && 0 <= head < SIZE && 0 <= tail < SIZE
    }

    function Pending(): seq<char>
      requires Valid()
    {
      Between(ring, head, tail)
    }

    predicate Full()
      requires Valid()
    {
      Next(head) == tail
    }

    /** Puts a character in the ring, unless there is none to put or no room for it. */
    function Accept(c: char): (d: Device)
      requires Valid()
      ensures d.Valid()
    {
      if c == NUL || Full() then this else this.(ring := ring[head := c], head := Next(head))
    }

    /** `keyboard_handler`, with the scancode it reads from the port. */
    function Interrupt(k: Code): (d: Device)
      requires Valid()
      ensures d.Valid()
    {
      Accept(mods.Char(k)).(mods := mods.After(k))
    }
  }

  function Next(i: int): (r: int)
    requires 0 <= i < SIZE
    ensures r == if i == SIZE - 1 then 0 else i + 1
  {
    (i + 1) % SIZE
  }

  /** How many slots lie from `tail` up to `head`. */
  function Gap(head: int, tail: int): (n: int)
    requires 0 <= head < SIZE && 0 <= tail < SIZE
    ensures 0 <= n < SIZE
  {
    if tail <= head then head - tail else head + SIZE - tail
  }

  /** The characters of the ring from `tail` up to `head`, oldest first. */
  function Between(ring: seq<char>, head: int, tail: int): (s: seq<char>)
    requires |ring| == SIZE && 0 <= head < SIZE && 0 <= tail < SIZE
    ensures |s| == Gap(head, tail)
    decreases Gap(head, tail)
  {
    if tail == head then [] else [ring[tail]] + Between(ring, head, Next(tail))
  }

  /** A character goes to the back of the queue and disturbs no pending one. */
  lemma {:induction false} Push(ring: seq<char>, head: int, tail: int, c: char)
    requires |ring| == SIZE && 0 <= head < SIZE && 0 <= tail < SIZE && Next(head) != tail
    ensures Between(ring[head := c], Next(head), tail) == Between(ring, head, tail) + [c]
    decreases Gap(head, tail)
  {
    if tail == head {
      assert Between(ring[head := c], Next(head), Next(tail)) == [];
    } else {
      Push(ring, head, Next(tail), c);
      assert ring[head := c][tail] == ring[tail];
    }
  }

  lemma AcceptPending(d: Device, c: char)
    requires d.Valid() && c != NUL
    ensures d.Accept(c).Pending() == if d.Full() then d.Pending() else d.Pending() + [c]
  {
    if !d.Full() {
      Push(d.ring, d.head, d.tail, c);
    }
  }

  lemma FullAt255(d: Device)
    requires d.Valid()
    ensures d.Full() <==> |d.Pending()| == 255
  {
  }

  /** What an interrupt does to the pending characters. */
  lemma InterruptPending(d: Device, k: Code)
    requires d.Valid()
    ensures var c := d.mods.Char(k);
            d.Interrupt(k).Pending() == if c != NUL && |d.Pending()| < 255 then d.Pending() + [c] else d.Pending()
    ensures d.Interrupt(k).mods == d.mods.After(k) && d.Interrupt(k).tail == d.tail
  {
    var c := d.mods.Char(k);
    FullAt255(d);
    if c != NUL {
      AcceptPending(d, c);
    }
  }

  class Keyboard {
    const inputBuffer: array<char>
    var bufferHead: int
    var bufferTail: int
    var shiftPressed: bool
    var capsLock: bool

    ghost predicate Valid()
      reads this, inputBuffer
    {
      View().Valid()
    }

    ghost function View(): Device
      reads this, inputBuffer
    {
      Device(inputBuffer[..], bufferHead, bufferTail, Modifiers(shiftPressed, capsLock))
    }

    constructor (buffer: array<char>)
      requires buffer.Length == SIZE
      ensures Valid() && inputBuffer == buffer && View().Pending() == [] && View().mods == State([])
    {
      inputBuffer := buffer;
      bufferHead := 0;
      bufferTail := 0;
      shiftPressed := false;
      capsLock := false;
    }

    /** A key with a character puts it behind the pending ones, unless 255 are pending; modifiers follow the key. */
    method Handler(scancode: Code)
      requires Valid()
      modifies this`bufferHead, this`shiftPressed, this`capsLock, inputBuffer
      ensures Valid() && View() == old(View()).Interrupt(scancode)
      ensures View().mods == old(View()).mods.After(scancode)
      ensures var c, pending := old(View()).mods.Char(scancode), old(View()).Pending();
              View().Pending() == if c != NUL && |pending| < 255 then pending + [c] else pending
    {
      InterruptPending(View(), scancode);
      if scancode == 0x2A || scancode == 0x36 {
        shiftPressed := true;
        return;
      }
      if scancode == 0xAA || scancode == 0xB6 {
        shiftPressed := false;
        return;
      }
      if scancode == 0x3A {
        capsLock := !capsLock;
        return;
      }
      if scancode >= 0x80 {
        return;
      }
      var ascii := Ascii(shiftPressed || capsLock, scancode);
      if ascii != NUL {
        var nextHead := (bufferHead + 1) % SIZE;
        if nextHead != bufferTail {
          inputBuffer[bufferHead] := ascii;
          bufferHead := nextHead;
        }
      }
    }

    /** NUL when nothing is pending, otherwise the oldest pending character. */
    method GetChar() returns (c: char)
      requires Valid()
      modifies this`bufferTail
      ensures Valid() && View() == old(View()).(tail := bufferTail)
      ensures if old(View()).Pending() == [] then c == NUL && bufferTail == old(bufferTail)
              else [c] + View().Pending() == old(View()).Pending()
    {
      if bufferHead == bufferTail {
        return NUL;
      }
      c := inputBuffer[bufferTail];
      bufferTail := (bufferTail + 1) % SIZE;
    }
  }

  // ----- interrupts between the reader's steps

  /** Where the reader is inside `keyboard_getchar`, with the values it has loaded. */
  datatype Reader =
    | Idle
    | GotHead(h: int)              // has read buffer_head
    | NotEmpty                     // has compared it with buffer_tail
    | GotChar(c: char)             // has read input_buffer[buffer_tail]
    | GotNext(c: char, t: int)     // has computed the next tail
    | Returning(c: char)           // has stored it

  /** The driver, the reader, and what happened so far. */
  datatype System = System(
    device: Device,
    reader: Reader,
    codes: seq<Code>,        // scancodes the interrupt has seen
    typed: seq<char>,        // the characters they produced
    kept: seq<bool>,         // for each of them: was it put in the buffer?
    delivered: seq<char>)    // characters `keyboard_getchar` has returned

  datatype Event = Key(k: Code) | Read

  function ReaderStep(s: System): System
    requires s.device.Valid()
  {
    var d := s.device;
    match s.reader
    case Idle => s.(reader := GotHead(d.head))
    case GotHead(h) => s.(reader := if h == d.tail then Idle else NotEmpty)
    case NotEmpty => s.(reader := GotChar(d.ring[d.tail]))
    case GotChar(c) => s.(reader := GotNext(c, Next(d.tail)))
    case GotNext(c, t) => s.(device := d.(tail := t), reader := Returning(c))
    case Returning(c) => s.(reader := Idle, delivered := s.delivered + [c])
  }

  /** A key press produces `c`, or nothing when it is NUL. */
  function Arrive(s: System, c: char): System
    requires s.device.Valid()
  {
    if c == NUL then s
    else s.(device := s.device.Accept(c), typed := s.typed + [c], kept := s.kept + [!s.device.Full()])
  }

  function Step(s: System, e: Event): System
    requires s.device.Valid()
  {
    match e
    case Read => ReaderStep(s)
    case Key(k) =>
      var t := Arrive(s, s.device.mods.Char(k));
      t.(device := t.device.(mods := s.device.mods.After(k)), codes := s.codes + [k])
  }

  /** The step of an interrupt is what the handler does to the driver, at any point of the reader. */
  lemma StepIsInterrupt(s: System, k: Code)
    requires s.device.Valid()
    ensures Step(s, Key(k)).device == s.device.Interrupt(k) && Step(s, Key(k)).reader == s.reader
  {
  }

  /** The characters of `cs` that were kept. */
  function Kept(cs: seq<char>, kept: seq<bool>): seq<char>
    requires |cs| == |kept|
  {
    if cs == [] then []
    else if kept[|cs| - 1] then Kept(cs[..|cs| - 1], kept[..|cs| - 1]) + [cs[|cs| - 1]]
    else Kept(cs[..|cs| - 1], kept[..|cs| - 1])
  }

  /** The characters put in the buffer so far: what was typed, without what was dropped. */
  function Accepted(s: System): seq<char>
    requires |s.kept| == |s.typed|
  {
    Kept(s.typed, s.kept)
  }

  /** The character that has left the buffer and is about to be returned. */
  function InHand(r: Reader): seq<char> {
    if r.Returning? then [r.c] else []
  }

  /**
   Accepted characters are those delivered, the one in hand and those pending, in this order; and
   what the reader has loaded is not out of date.
   */
  ghost predicate Accounted(s: System) {
    && s.device.Valid()
    && |s.kept| == |s.typed|
    && Accepted(s) == s.delivered + InHand(s.reader) + s.device.Pending()
    && UpToDate(s.device, s.reader)
  }

  ghost predicate UpToDate(d: Device, r: Reader)
    requires d.Valid()
  {
    match r
    case GotHead(h) => 0 <= h < SIZE && Gap(h, d.tail) <= Gap(d.head, d.tail)
    case NotEmpty => d.head != d.tail
    case GotChar(c) => d.head != d.tail && c == d.ring[d.tail]
    case GotNext(c, t) => d.head != d.tail && c == d.ring[d.tail] && t == Next(d.tail)
    case _ => true
  }

  /** The account is kept, and the characters are those that the scancodes mean. */
  ghost predicate Inv(s: System) {
    Accounted(s) && s.device.mods == State(s.codes) && s.typed == Typed(s.codes)
  }

  lemma KeptMore(cs: seq<char>, kept: seq<bool>, c: char, b: bool)
    requires |cs| == |kept|
    ensures Kept(cs + [c], kept + [b]) == if b then Kept(cs, kept) + [c] else Kept(cs, kept)
  {
    assert (cs + [c])[..|cs|] == cs && (kept + [b])[..|cs|] == kept;
  }

  /** A character that arrives goes behind the pending ones, or nowhere, and the reader stays up to date. */
  lemma ArriveAccounted(s: System, c: char)
    requires Accounted(s)
    ensures Accounted(Arrive(s, c))
  {
    if c != NUL {
      KeptMore(s.typed, s.kept, c, !s.device.Full());
      AcceptUpToDate(s.device, s.reader, c);
      AcceptPending(s.device, c);
      PendingMore(Accepted(s), s.delivered, InHand(s.reader), s.device.Pending(), c);
    }
  }

  lemma PendingMore(accepted: seq<char>, delivered: seq<char>, inHand: seq<char>, pending: seq<char>, c: char)
    requires accepted == delivered + inHand + pending
    ensures accepted + [c] == delivered + inHand + (pending + [c])
  {
  }

  lemma AcceptUpToDate(d: Device, r: Reader, c: char)
    requires d.Valid() && UpToDate(d, r)
    ensures UpToDate(d.Accept(c), r)
  {
    if c != NUL && !d.Full() {
      assert Gap(Next(d.head), d.tail) == Gap(d.head, d.tail) + 1;
    }
  }

  lemma ReaderAccounted(s: System)
    requires Accounted(s)
    ensures Accounted(ReaderStep(s))
  {
  }

  lemma KeyTyped(ks: seq<Code>, k: Code)
    ensures State(ks + [k]) == State(ks).After(k)
    ensures Typed(ks + [k]) == if State(ks).Char(k) == NUL then Typed(ks) else Typed(ks) + [State(ks).Char(k)]
  {
    assert (ks + [k])[..|ks|] == ks;
    assert Typed(ks) + [] == Typed(ks);
  }

  /** The account does not mention modifiers and scancodes. */
  lemma Relabel(s: System, mods: Modifiers, codes: seq<Code>)
    requires Accounted(s)
    ensures Accounted(s.(device := s.device.(mods := mods), codes := codes))
  {
  }

  lemma KeyAccounted(s: System, k: Code)
    requires Accounted(s)
    ensures Accounted(Step(s, Key(k)))
  {
    var c := s.device.mods.Char(k);
    ArriveAccounted(s, c);
    Relabel(Arrive(s, c), s.device.mods.After(k), s.codes + [k]);
  }

  lemma KeyHistory(s: System, k: Code)
    requires s.device.Valid() && s.device.mods == State(s.codes) && s.typed == Typed(s.codes)
    ensures var t := Step(s, Key(k)); t.device.mods == State(t.codes) && t.typed == Typed(t.codes)
  {
    KeyTyped(s.codes, k);
  }

  lemma ReadHistory(s: System)
    requires s.device.Valid()
    ensures var t := ReaderStep(s); t.device.mods == s.device.mods && t.typed == s.typed && t.codes == s.codes
  {
  }

  /** One step, of the reader or of an interrupt, keeps the invariant. */
  lemma StepInv(s: System, e: Event)
    requires Inv(s)
    ensures Inv(Step(s, e))
  {
    match e {
      case Key(k) =>
        KeyAccounted(s, k);
        KeyHistory(s, k);
      case Read =>
        ReaderAccounted(s);
        ReadHistory(s);
    }
  }

  function Run(s: System, es: seq<Event>): (r: System)
    requires Inv(s)
    ensures Inv(r)
    decreases |es|
  {
    if es == [] then s
    else
      StepInv(s, es[0]);
      Run(Step(s, es[0]), es[1..])
  }

  /** A character is dropped exactly when 255 accepted ones have not left the buffer. */
  lemma DroppedOnlyWhenFull(s: System, c: char)
    requires Accounted(s) && c != NUL
    ensures var t := Arrive(s, c);
            && t.kept == s.kept + [t.kept[|s.kept|]]
            && (!t.kept[|s.kept|] <==> |Accepted(s)| - |s.delivered| - |InHand(s.reader)| == SIZE - 1)
  {
  }

  const BOOT: System := System(Device(seq(SIZE, _ => NUL), 0, 0, Modifiers(false, false)), Idle, [], [], [], [])

  /**
   In every interleaving, what has been delivered is a prefix of what was accepted, and as long as
   nothing was dropped, of what was typed.
   */
  lemma DeliveredInOrder(es: seq<Event>)
    ensures Inv(BOOT)
    ensures Run(BOOT, es).delivered <= Accepted(Run(BOOT, es))
    ensures (forall i :: 0 <= i < |Run(BOOT, es).kept| ==> Run(BOOT, es).kept[i])
            ==> Run(BOOT, es).delivered <= Typed(Run(BOOT, es).codes)
  {
    BootInv();
    var s := Run(BOOT, es);
    if forall i :: 0 <= i < |s.kept| ==> s.kept[i] {
      AllKept(s.typed, s.kept);
    }
  }

  lemma BootInv()
    ensures Inv(BOOT)
  {
  }

  lemma {:induction false} AllKept(cs: seq<char>, kept: seq<bool>)
    requires |cs| == |kept| && forall i :: 0 <= i < |kept| ==> kept[i]
    ensures Kept(cs, kept) == cs
  {
    if cs != [] {
      AllKept(cs[..|cs| - 1], kept[..|cs| - 1]);
    }
  }

  // ----- what the reader returns

  /** No key types a NUL. */
  lemma {:induction false} NoNul(ks: seq<Code>)
    ensures NUL !in Typed(ks)
  {
    if ks != [] {
      NoNul(ks[..|ks| - 1]);
    }
  }

  lemma {:induction false} KeptFrom(cs: seq<char>, kept: seq<bool>, c: char)
    requires |cs| == |kept| && c !in cs
    ensures c !in Kept(cs, kept)
  {
    if cs != [] {
      KeptFrom(cs[..|cs| - 1], kept[..|cs| - 1], c);
    }
  }

  /** So every character that is delivered can be told from the NUL that stands for none. */
  lemma DeliveredNotNul(es: seq<Event>)
    ensures Inv(BOOT) && NUL !in Run(BOOT, es).delivered
  {
    BootInv();
    var s := Run(BOOT, es);
    NoNul(s.codes);
    KeptFrom(s.typed, s.kept, NUL);
    assert s.delivered <= Accepted(s);
  }

  /** While only interrupts happen, the reader and the tail stay where they are. */
  lemma {:induction false} KeysOnly(s: System, es: seq<Event>)
    requires Inv(s) && forall i :: 0 <= i < |es| ==> es[i].Key?
    ensures Run(s, es).reader == s.reader && Run(s, es).device.tail == s.device.tail
    decreases |es|
  {
    if es != [] {
      StepInv(s, es[0]);
      KeysOnly(Step(s, es[0]), es[1..]);
    }
  }

  /**
   `keyboard_getchar` returns NUL exactly when the buffer was empty as it read `buffer_head`, even
   if characters arrive before it compares: `s` is the state at the read, `es` what arrives.
   */
  lemma NulMeansEmpty(s: System, es: seq<Event>)
    requires Inv(s) && s.reader.Idle? && forall i :: 0 <= i < |es| ==> es[i].Key?
    ensures Inv(Step(s, Read))
    ensures Step(Run(Step(s, Read), es), Read).reader.Idle? <==> s.device.Pending() == []
  {
    var s1 := Step(s, Read);
    StepInv(s, Read);
    ReadHead(s);
    KeysOnly(s1, es);
    Compare(Run(s1, es), s.device.head);
    PendingEmpty(s.device);
  }

  lemma ReadHead(s: System)
    requires s.device.Valid() && s.reader.Idle?
    ensures Step(s, Read).reader == GotHead(s.device.head) && Step(s, Read).device == s.device
  {
  }

  lemma Compare(s: System, h: int)
    requires s.device.Valid() && s.reader == GotHead(h)
    ensures Step(s, Read).reader.Idle? <==> h == s.device.tail
  {
  }

  lemma PendingEmpty(d: Device)
    requires d.Valid()
    ensures d.Pending() == [] <==> d.head == d.tail
  {
  }

  function Reads(es: seq<Event>): nat {
    if es == [] then 0 else (if es[0].Read? then 1 else 0) + Reads(es[1..])
  }

  /** The reader has taken `k` of the six steps that deliver `c` behind `delivered`. */
  ghost predicate Delivering(s: System, c: char, delivered: seq<char>, k: nat)
    requires s.device.Valid()
  {
    var d := s.device;
    match k
    case 0 => s.reader.Idle? && s.delivered == delivered && d.head != d.tail && d.ring[d.tail] == c
    case 1 =>
      && s.reader.GotHead? && s.delivered == delivered && s.reader.h != d.tail
      && d.head != d.tail && d.ring[d.tail] == c
    case 2 => s.reader.NotEmpty? && s.delivered == delivered && d.head != d.tail && d.ring[d.tail] == c
    case 3 => s.reader.GotChar? && s.delivered == delivered && s.reader.c == c
    case 4 => s.reader.GotNext? && s.delivered == delivered && s.reader.c == c
    case 5 => s.reader.Returning? && s.delivered == delivered && s.reader.c == c
    case _ => s.reader.Idle? && s.delivered == delivered + [c]
  }

  lemma ReadDelivers(s: System, c: char, delivered: seq<char>, k: nat)
    requires Inv(s) && Delivering(s, c, delivered, k) && k < 6
    ensures ReaderStep(s).device.Valid() && Delivering(ReaderStep(s), c, delivered, k + 1)
  {
    ReaderAccounted(s);
  }

  /** An arriving character is put at the head, which is not the slot of the oldest pending one. */
  lemma AcceptKeepsFront(d: Device, c: char)
    requires d.Valid() && d.head != d.tail
    ensures var e := d.Accept(c); e.tail == d.tail && e.head != e.tail && e.ring[e.tail] == d.ring[d.tail]
  {
  }

  lemma KeyDelivers(s: System, k: Code, c: char, delivered: seq<char>, n: nat)
    requires Inv(s) && Delivering(s, c, delivered, n)
    ensures Step(s, Key(k)).device.Valid() && Delivering(Step(s, Key(k)), c, delivered, n)
  {
    if s.device.head != s.device.tail {
      AcceptKeepsFront(s.device, s.device.mods.Char(k));
    }
  }

  lemma {:induction false} Delivers(s: System, es: seq<Event>, c: char, delivered: seq<char>, k: nat)
    requires Inv(s) && Delivering(s, c, delivered, k) && k + Reads(es) == 6
    ensures Delivering(Run(s, es), c, delivered, 6)
    decreases |es|
  {
    if es != [] {
      StepInv(s, es[0]);
      match es[0] {
        case Key(code) =>
          KeyDelivers(s, code, c, delivered, k);
          Delivers(Step(s, es[0]), es[1..], c, delivered, k);
        case Read =>
          ReadDelivers(s, c, delivered, k);
          Delivers(Step(s, es[0]), es[1..], c, delivered, k + 1);
      }
    }
  }

  /** Six steps of the reader deliver the oldest pending character, whatever arrives between them. */
  lemma ReaderProgress(s: System, es: seq<Event>)
    requires Inv(s) && s.reader.Idle? && s.device.Pending() != [] && Reads(es) == 6
    ensures Run(s, es).delivered == s.delivered + [s.device.Pending()[0]] && Run(s, es).reader.Idle?
  {
    Delivers(s, es, s.device.Pending()[0], s.delivered, 0);
  }

  /** Of the six steps, only the fifth changes the driver: it stores the next tail. */
  lemma ReadChanges(s: System, c: char, delivered: seq<char>, k: nat)
    requires Inv(s) && Delivering(s, c, delivered, k) && k < 6
    ensures ReaderStep(s).device == if k == 4 then s.device.(tail := Next(s.device.tail)) else s.device
  {
  }

  lemma {:induction false} ReadsAlone(s: System, es: seq<Event>, c: char, delivered: seq<char>, k: nat)
    requires Inv(s) && Delivering(s, c, delivered, k) && k + |es| == 6
    requires forall i :: 0 <= i < |es| ==> es[i] == Read
    ensures Run(s, es).device == if k <= 4 then s.device.(tail := Next(s.device.tail)) else s.device
    decreases |es|
  {
    if es != [] {
      StepInv(s, Read);
      ReadDelivers(s, c, delivered, k);
      ReadChanges(s, c, delivered, k);
      ReadsAlone(ReaderStep(s), es[1..], c, delivered, k + 1);
    }
  }

  /** Without an interrupt between them, the six steps do to the driver what `GetChar` does. */
  lemma ReaderIsGetChar(s: System, es: seq<Event>)
    requires Inv(s) && s.reader.Idle? && s.device.Pending() != []
    requires |es| == 6 && forall i :: 0 <= i < |es| ==> es[i] == Read
    ensures Run(s, es).device == s.device.(tail := Next(s.device.tail))
    ensures Run(s, es).device.Pending() == s.device.Pending()[1..]
  {
    ReadsAlone(s, es, s.device.Pending()[0], s.delivered, 0);
  }
}
