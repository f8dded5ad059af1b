/** From keyboard bytes to the buffer of a waiting `gets`, over whole runs. */
module SchedulerInput {
  import opened Words
  import opened Seqs
  import opened Contexts
  import opened Keyboard
  import opened Scheduler
  import opened SchedulerInvariant
  import opened SchedulerRuns

  /** The bytes a run reads from the keyboard port. */
  function KeyBytes(steps: seq<Step>): seq<Byte> {
    if steps == [] then []
    else (if steps[0].Key? then [steps[0].data] else []) + KeyBytes(steps[1..])
  }

  /** The characters a byte stream types, from a given decoder state. */
  function Text(scanCode: nat, pressed: KeyTable, bytes: seq<Byte>): seq<char> {
    TypedAll(pressed, Decode(scanCode, bytes).events)
  }

  /** The address of the next cell, and the distance from one cell up to another, both modulo 2^32. */
  function Up(at: U32): U32 { if at + 1 < WORD then at + 1 else 0 }
  function Distance(at: U32, a: U32): nat { if a >= at then a - at else a + WORD - at }

  function Store(memory: map<nat, char>, at: U32, text: seq<char>): map<nat, char>
    decreases |text|
  {
    if text == [] then memory else Store(memory[at := text[0]], Up(at), text[1..])
  }

  /** Writing a text fills its cells, in order, and no others. */
  lemma {:induction false} StoreCell(memory: map<nat, char>, at: U32, text: seq<char>, a: U32)
    requires |text| <= WORD
    ensures var m := Store(memory, at, text);
            if Distance(at, a) < |text| then a in m && m[a] == text[Distance(at, a)]
            else (a in m <==> a in memory) && (a in m ==> m[a] == memory[a])
    decreases |text|
  {
    if text != [] {
      StoreCell(memory[at := text[0]], Up(at), text[1..], a);
    }
  }

  lemma {:induction false} StoreSnoc(memory: map<nat, char>, at: U32, text: seq<char>, c: char)
    ensures Store(memory, at, text + [c]) == Store(memory, at, text)[Wrap32(at + |text|) := c]
    decreases |text|
  {
    if text != [] {
      assert (text + [c])[1..] == text[1..] + [c];
      StoreSnoc(memory[at := text[0]], Up(at), text[1..], c);
    }
  }

  // ---------------------------------------------------------------- appending one byte

  lemma {:induction false} TypedSnoc(pressed: KeyTable, events: seq<Byte>, e: Byte)
    ensures TypedAll(pressed, events + [e])
            == TypedAll(pressed, events)
               + match Typed(PressAll(pressed, events), e) case Some(c) => [c] case None => []
    decreases |events|
  {
    if events == [] {
      assert TypedAll(Press(pressed, e), [e][1..]) == [];
    } else {
      assert (events + [e])[1..] == events[1..] + [e];
      TypedSnoc(Press(pressed, events[0]), events[1..], e);
    }
  }

  lemma {:induction false} KeyBytesSnoc(steps: seq<Step>, step: Step)
    ensures KeyBytes(steps + [step]) == KeyBytes(steps) + if step.Key? then [step.data] else []
  {
    if steps != [] {
      assert (steps + [step])[1..] == steps[1..] + [step];
      KeyBytesSnoc(steps[1..], step);
    }
  }

  // ---------------------------------------------------------------- the decoder inside a run

  ghost predicate DecoderAt(e: State, s: State, bytes: seq<Byte>) {
    var d := Decode(s.scanCode, bytes);
    !d.invalid && e.scanCode == d.scanCode && e.pressed == PressAll(s.pressed, d.events)
  }

  lemma TickKeyboard(s: State, i: nat)
    requires i <= |s.sleeping|
    ensures var t := TickFrom(s, i);
            t.scanCode == s.scanCode && t.pressed == s.pressed && t.memory == s.memory && t.gets == s.gets
    decreases |s.sleeping| - i
  {
  }

  /** Steps other than key interrupts leave the decoder and the buffer memory alone. */
  lemma OtherStep(s: State, step: Step)
    requires !step.Key?
    ensures var t := Next(s, step);
            && t.scanCode == s.scanCode && t.pressed == s.pressed && t.memory == s.memory
            && (!step.SysGets? ==> t.gets == s.gets)
  {
    if step.Timer? {
      TickKeyboard(s, 0);
    }
  }

  /** A key interrupt moves the decoder; what it does to a reader is `Deliver`. */
  lemma KeyDecoder(s: State, feed: Feed)
    ensures var t := OnFeed(s, feed);
            match feed
            case Partial(code) => t.scanCode == code && t.pressed == s.pressed
            case Event(e) => t.scanCode == 0 && t.pressed == Press(s.pressed, e)
            case Invalid => t.fault == Some(InvalidScanCode)
  {
  }

  /** In any run that has not halted the decoder state is that of decoding all bytes so far. */
  lemma {:induction false} RunDecoder(s: State, steps: seq<Step>)
    requires Run(s, steps).fault.None?
    ensures DecoderAt(Run(s, steps), s, KeyBytes(steps))
  {
    if steps != [] {
      var n := |steps| - 1;
      var past, step := steps[..n], steps[n];
      assert steps == past + [step];
      RunSnoc(s, past, step);
      KeyBytesSnoc(past, step);
      var e := Run(s, past);
      RunDecoder(s, past);
      if step.Key? {
        var feed := FeedByte(e.scanCode, step.data);
        KeyDecoder(e, feed);
        var d := Decode(s.scanCode, KeyBytes(past));
        DecodeSnoc(s.scanCode, KeyBytes(past), step.data);
        if feed.Event? {
          PressAllSnoc(s.pressed, d.events, feed.event);
        }
      } else {
        assert KeyBytes(steps) == KeyBytes(past);
        OtherStep(e, step);
      }
    }
  }

  // ---------------------------------------------------------------- a waiting reader

  function FedChar(pressed: KeyTable, feed: Feed): seq<char> {
    match feed
    case Event(e) => (match Typed(pressed, e) case Some(c) => [c] case None => [])
    case _ => []
  }

  lemma TextSnoc(scanCode: nat, pressed: KeyTable, bytes: seq<Byte>, b: Byte)
    requires var d := Decode(scanCode, bytes);
             !d.invalid
    ensures var d := Decode(scanCode, bytes);
            Text(scanCode, pressed, bytes + [b])
            == Text(scanCode, pressed, bytes)
               + FedChar(PressAll(pressed, d.events), FeedByte(d.scanCode, b))
  {
    var d := Decode(scanCode, bytes);
    DecodeSnoc(scanCode, bytes, b);
    match FeedByte(d.scanCode, b)
    case Event(e) => TypedSnoc(pressed, d.events, e);
    case _ =>
  }

  /** A reader of n characters is served once it has them; a reader of none never is. */
  predicate Full(text: seq<char>, n: nat) { 1 <= n <= |text| }

  /** The reader `p` of `n` characters waits, with `text` in its buffer at `at`. */
  ghost predicate Reading(s: State, p: nat, at: U32, n: nat, memory: map<nat, char>, text: seq<char>) {
    && s.gets == Gets(true, n, |text|, at, Some(p))
    && !Full(text, n)
    && s.memory == Store(memory, at, text)
  }

  /** One character for a waiting reader: stored, and on the last one the reader is released. */
  lemma Deliver(s: State, p: nat, at: U32, n: nat, memory: map<nat, char>, text: seq<char>, feed: Feed)
    requires Inv(s) && s.fault.None? && Reading(s, p, at, n, memory, text) && !feed.Invalid?
    ensures var t, text' := OnFeed(s, feed), text + FedChar(s.pressed, feed);
            && t.fault.None?
            && t.memory == Store(memory, at, text')
            && (!Full(text', n) ==> Reading(t, p, at, n, memory, text'))
            && (Full(text', n) ==>
                  && |text'| == n
                  && t.gets == NO_GETS && t.ready == s.ready + [p] && p < |t.procs| == |s.procs|
                  && t.procs[p] == Process(Ready, s.procs[p].context.(eax := at)))
  {
    var chars := FedChar(s.pressed, feed);
    if chars == [] {
      assert text + chars == text;
    } else {
      StoreSnoc(memory, at, text, chars[0]);
      var t := Respond(s, feed.event);
      if !t.gets.enabled {
        CompleteGetsInv(t, p);
      }
    }
  }

  /** The characters one step types. */
  function StepText(s: State, step: Step): seq<char> {
    if step.Key? then FedChar(s.pressed, FeedByte(s.scanCode, step.data)) else []
  }

  lemma RunText(s: State, past: seq<Step>, step: Step)
    requires Run(s, past).fault.None?
    ensures Text(s.scanCode, s.pressed, KeyBytes(past + [step]))
            == Text(s.scanCode, s.pressed, KeyBytes(past)) + StepText(Run(s, past), step)
  {
    KeyBytesSnoc(past, step);
    RunDecoder(s, past);
    if step.Key? {
      TextSnoc(s.scanCode, s.pressed, KeyBytes(past), step.data);
    } else {
      assert KeyBytes(past + [step]) == KeyBytes(past);
    }
  }

  /** One step of any kind while a reader waits. */
  ghost predicate Delivered(s: State, t: State, p: nat, at: U32, n: nat, memory: map<nat, char>, text: seq<char>) {
    && t.memory == Store(memory, at, text)
    && (!Full(text, n) ==> Reading(t, p, at, n, memory, text))
    && (Full(text, n) ==>
          && |text| == n
          && t.gets == NO_GETS && t.ready == s.ready + [p] && p < |t.procs| == |s.procs|
          && t.procs[p] == Process(Ready, s.procs[p].context.(eax := at)))
  }

  lemma ReaderStep(s: State, step: Step, p: nat, at: U32, n: nat, memory: map<nat, char>, text: seq<char>)
    requires Inv(s) && s.fault.None? && Reading(s, p, at, n, memory, text)
    requires !step.SysGets? && Next(s, step).fault.None?
    ensures Delivered(s, Next(s, step), p, at, n, memory, text + StepText(s, step))
  {
    if step.Key? {
      var feed := FeedByte(s.scanCode, step.data);
      KeyDecoder(s, feed);
      Deliver(s, p, at, n, memory, text, feed);
    } else {
      assert text + [] == text;
      OtherStep(s, step);
    }
  }

  /** The state in which the system call leaves its caller. */
  lemma GetsStarts(s: State, call: TrapFrame)
    requires Inv(s) && s.fault.None? && s.flow.ProcessThread? && call.ecx <= 0x40_0000
    ensures var t := Next(s, SysGets(call));
            && Inv(t) && t.scanCode == s.scanCode && t.pressed == s.pressed
            && Reading(t, s.current.value, call.ebx, call.ecx, s.memory, [])
  {
    assert s.current.value in s.running;
    NextInv(s, SysGets(call));
  }

  /** No step is a `gets`. */
  predicate NoGets(steps: seq<Step>) { forall step :: step in steps ==> !step.SysGets? }

  /** With no reader, keys write nothing: nothing lands past the n-th character. */
  lemma {:induction false} NoReaderNoWrites(s: State, steps: seq<Step>)
    requires Inv(s) && !s.gets.enabled && NoGets(steps)
    ensures Run(s, steps).memory == s.memory
    decreases |steps|
  {
    if steps != [] {
      var t := Next(s, steps[0]);
      NextInv(s, steps[0]);
      if steps[0].Key? {
        QuietFeed(s, FeedByte(s.scanCode, steps[0].data));
      } else {
        OtherStep(s, steps[0]);
        assert steps[0] in steps;
      }
      NoReaderNoWrites(t, steps[1..]);
    }
  }

  lemma QuietFeed(s: State, feed: Feed)
    requires Inv(s) && !s.gets.enabled
    ensures OnFeed(s, feed).memory == s.memory && OnFeed(s, feed).gets == s.gets
  {
  }

  // ---------------------------------------------------------------- a whole line

  /** The first n characters, or all of a text that is not full. */
  function Upto(text: seq<char>, n: nat): seq<char> { if Full(text, n) then text[..n] else text }

  /** What a reader of n characters has got: everything typed so far up to the n-th, which releases it.
      A reader of none goes on for ever. */
  ghost predicate Got(e: State, p: nat, at: U32, n: nat, memory: map<nat, char>, text: seq<char>) {
    && e.memory == Store(memory, at, Upto(text, n))
    && (if Full(text, n) then e.gets == NO_GETS else Reading(e, p, at, n, memory, text))
  }

  lemma QuietStep(s: State, step: Step)
    requires Inv(s) && !s.gets.enabled && !step.SysGets?
    ensures Next(s, step).memory == s.memory && Next(s, step).gets == s.gets
  {
    if step.Key? {
      QuietFeed(s, FeedByte(s.scanCode, step.data));
    } else {
      OtherStep(s, step);
    }
  }

  lemma GotStep(s: State, step: Step, p: nat, at: U32, n: nat, memory: map<nat, char>, text: seq<char>)
    requires Inv(s) && s.fault.None? && Got(s, p, at, n, memory, text)
    requires !step.SysGets? && Next(s, step).fault.None?
    ensures Got(Next(s, step), p, at, n, memory, text + StepText(s, step))
  {
    var more := StepText(s, step);
    if Full(text, n) {
      QuietStep(s, step);
      assert (text + more)[..n] == text[..n];
    } else {
      ReaderStep(s, step, p, at, n, memory, text);
      assert Full(text + more, n) ==> Upto(text + more, n) == text + more;
    }
  }

  /** From the call on, whether or not the reader has been released meanwhile, as long as there is no
      other `gets`: for n >= 1 the first n characters typed are written, and nothing typed later; for n = 0
      everything typed is. */
  lemma {:induction false} RunStores(s: State, steps: seq<Step>, p: nat, at: U32, n: nat, memory: map<nat, char>)
    requires Inv(s) && Reading(s, p, at, n, memory, []) && NoGets(steps) && Run(s, steps).fault.None?
    ensures Got(Run(s, steps), p, at, n, memory, Text(s.scanCode, s.pressed, KeyBytes(steps)))
  {
    if steps != [] {
      var past, step := steps[..|steps| - 1], steps[|steps| - 1];
      assert steps == past + [step] && step in steps;
      RunSnoc(s, past, step);
      RunText(s, past, step);
      RunInv(s, past);
      RunStores(s, past, p, at, n, memory);
      GotStep(Run(s, past), step, p, at, n, memory, Text(s.scanCode, s.pressed, KeyBytes(past)));
    }
  }

  /** The characters of key strokes `later` that follow key strokes `earlier`, read off the history: a
      character is lower-cased exactly where no shift key was held. */
  lemma TextAfter(earlier: seq<Byte>, later: seq<Byte>)
    requires forall e :: e in later ==> IsListed(e) && !IsMissing(e)
    ensures Text(0, PressAll(NoKeys(), earlier), Codes(later)) == TextOf(earlier + later, |earlier|)
  {
    DecodeInvertsCodes(later);
    TypedIsText(earlier + later, |earlier|);
    assert (earlier + later)[..|earlier|] == earlier && (earlier + later)[|earlier|..] == later;
  }

  /** Events that send their own number as the one byte. */
  lemma {:induction false} OwnCodes(events: seq<Byte>)
    requires forall e :: e in events ==> Code(e) == [e]
    ensures Codes(events) == events
  {
    if events != [] {
      OwnCodes(events[1..]);
    }
  }

  lemma {:induction false} SilentFirst(events: seq<Byte>, from: nat, n: nat)
    requires from <= n <= |events| && forall i :: from <= i < n ==> Layout(events[i]) == ""
    ensures TextOf(events, from) == TextOf(events, n)
    decreases n - from
  {
    if from < n {
      SilentFirst(events, from + 1, n);
    }
  }

  predicate IsShift(b: Byte) { b == 0x2a || b == 0xaa || b == 0x36 || b == 0xb6 }

  lemma PlainCodes(e: Byte)
    requires IsShift(e) || Layout(e) != ""
    ensures IsListed(e) && !IsMissing(e) && Code(e) == [e]
    ensures IsShift(e) ==> Layout(e) == ""
  {
  }

  /** Byte by byte from the idle keyboard: a key types its plain character, its shifted one behind the
      press of either shift key, and the plain one again after the release. */
  lemma KeyTypes(shift: Byte, e: Byte)
    requires Layout(e) != "" && (shift == 0x2a || shift == 0x36)
    ensures Text(0, NoKeys(), [e]) == [Layout(e)[0]]
    ensures Text(0, NoKeys(), [shift, e]) == [Layout(e)[1]]
    ensures Text(0, NoKeys(), [shift, shift + 0x80, e]) == [Layout(e)[0]]
  {
    KeyTypesAfter([], e);
    KeyTypesAfter([shift], e);
    KeyTypesAfter([shift, shift + 0x80], e);
    assert [] + [e] == [e] && [shift] + [e] == [shift, e];
    assert [shift, shift + 0x80] + [e] == [shift, shift + 0x80, e];
    ShiftReleased(shift);
  }

  lemma ShiftReleased(shift: Byte)
    requires shift == 0x2a || shift == 0x36
    ensures ShiftDown([shift]) && !ShiftDown([shift, shift + 0x80])
  {
    assert [shift, shift + 0x80][..1] == [shift] && [shift][..0] == [];
    assert !Down([], 0x2a, 0xaa) && !Down([], 0x36, 0xb6);
    assert Down([shift], 0x2a, 0xaa) <==> shift == 0x2a;
    assert Down([shift], 0x36, 0xb6) <==> shift == 0x36;
  }

  lemma KeyTypesAfter(before: seq<Byte>, e: Byte)
    requires Layout(e) != "" && forall b :: b in before ==> IsShift(b)
    ensures Text(0, NoKeys(), before + [e]) == [Layout(e)[if ShiftDown(before) then 1 else 0]]
  {
    var all, n := before + [e], |before|;
    forall b | b in all ensures IsListed(b) && !IsMissing(b) && Code(b) == [b] {
      PlainCodes(b);
    }
    OwnCodes(all);
    TextAfter([], all);
    assert [] + all == all;
    forall i | 0 <= i < n ensures Layout(all[i]) == "" {
      assert before[i] in before;
      PlainCodes(before[i]);
    }
    SilentFirst(all, 0, n);
    LastTyped(all, n);
    assert all[..n] == before;
  }

  lemma LastTyped(events: seq<Byte>, n: nat)
    requires n + 1 == |events| && Layout(events[n]) != ""
    ensures TextOf(events, n) == [Layout(events[n])[if ShiftDown(events[..n]) then 1 else 0]]
  {
    assert TextOf(events, n + 1) == [];
  }
}
