/** A blocked process that is not stranded can always be woken: what `Stranded` means. */
module SchedulerWaking {
  import opened Words
  import opened Seqs
  import opened Keyboard
  import opened Scheduler
  import opened SchedulerInvariant
  import opened SchedulerStranding
  import opened SchedulerRuns
  import K = KeyboardSilence
  import T = SchedulerTheorems

  // ---------------------------------------------------------------- a sleeper: let the clock run out

  function Ticks(n: nat): seq<Step> {
    if n == 0 then [] else [Timer(T.ZERO_FRAME)] + Ticks(n - 1)
  }

  lemma {:induction false} TicksRun(s: State, n: nat)
    requires Inv(s) && s.fault.None?
    ensures Timers(Ticks(n)) == n && Inv(Run(s, Ticks(n))) && Run(s, Ticks(n)).fault.None?
    decreases n
  {
    if n > 0 {
      var t := Next(s, Timer(T.ZERO_FRAME));
      TimerInv(s, T.ZERO_FRAME);
      TicksRun(t, n - 1);
      assert Ticks(n)[1..] == Ticks(n - 1);
    }
  }

  lemma SleeperWakes(s: State, n: nat, p: nat) returns (steps: seq<Step>)
    requires Inv(s) && s.fault.None? && n >= 1 && Clock(n, p) in s.sleeping
    ensures p !in Run(s, steps).blocking
  {
    var past := Ticks(n - 1);
    steps := past + [Timer(T.ZERO_FRAME)];
    TicksRun(s, n - 1);
    ClockCounts(s, past, n, p);
    var e := Run(s, past);
    RunSnoc(s, past, Timer(T.ZERO_FRAME));
    NextClock(e, Timer(T.ZERO_FRAME), 1, p);
    NextInv(e, Timer(T.ZERO_FRAME));
    ReadyOnly(Next(e, Timer(T.ZERO_FRAME)), p);
  }

  // ---------------------------------------------------------------- a reader: type until it is served

  /** `p` waits for n more characters. */
  predicate Waits(s: State, p: nat, n: nat) {
    s.gets.waiter == Some(p) && n >= 1 && s.gets.count == s.gets.already + n
  }

  lemma ReaderFed(s: State, p: nat, n: nat, feed: Feed)
    requires Inv(s) && s.fault.None? && Waits(s, p, n) && !feed.Invalid?
    ensures var t := OnFeed(s, feed);
            var typed := feed.Event? && Typed(s.pressed, feed.event).Some?;
            && Inv(t) && t.fault.None?
            && (if typed && n == 1 then p !in t.blocking
                else Waits(t, p, if typed then n - 1 else n)
                     && t.scanCode == if feed.Event? then 0 else feed.code)
  {
    FeedInv(s, feed);
    if feed.Event? {
      var t := Respond(s, feed.event);
      if !t.gets.enabled {
        CompleteGetsInv(t, p);
      }
    }
  }

  lemma {:induction false} WrapSplits(x: nat) returns (high: nat)
    ensures x == high * TWO_64 + Wrap64(x) && Wrap64(x) < TWO_64
  {
    if x < TWO_64 {
      high := 0;
    } else {
      high := WrapSplits(x - TWO_64);
      high := high + 1;
    }
  }

  /** The only complete code that ends in a zero byte and is fatal is E0 00. */
  lemma ZeroFatal(code: nat)
    requires IsComplete(code) && ToEventId(code).None? && code % 256 == 0
    ensures code == 0xe000
  {
  }

  lemma LowByteZero(c: nat, high: nat, code: nat)
    requires c * 256 == high * TWO_64 + code
    ensures code % 256 == 0
  {
    assert code == 256 * (c - high * 0x100_0000_0000_0000);
  }

  lemma ExtendedQ()
    ensures IsComplete(0xe010) && ToEventId(0xe010).Some?
  {
    ExtendedCode(0x10);
    LookupPressed(0x59, 0x10);
  }

  /** A zero byte is fatal only behind E0, and there 10 is not. */
  lemma ZeroOrQ(c: nat)
    requires FeedByte(c, 0).Invalid?
    ensures FeedByte(c, 0x10).Event?
  {
    var high := WrapSplits(c * 256);
    FatalIsE0(c, high, Wrap64(c * 256));
    BehindE0(c, high);
  }

  lemma FatalIsE0(c: nat, high: nat, code: nat)
    requires c * 256 == high * TWO_64 + code && code == Wrap64(c * 256) && FeedByte(c, 0).Invalid?
    ensures code == 0xe000
  {
    K.FeedCode(c, 0, code);
    LowByteZero(c, high, code);
    ZeroFatal(code);
  }

  lemma BehindE0(c: nat, high: nat)
    requires c * 256 == high * TWO_64 + 0xe000
    ensures FeedByte(c, 0x10).Event?
  {
    var code: nat := 0xe010;
    assert c * 256 + 0x10 == high * TWO_64 + code;
    K.WrapDrops(high, code);
    ExtendedQ();
    K.FeedCode(c, 0x10, code);
  }

  lemma WrapTwice(y: nat)
    ensures Wrap64(Wrap64(y) * 256) == Wrap64(y * 256)
  {
    var high := WrapSplits(y);
    assert y * 256 == (high * 256) * TWO_64 + Wrap64(y) * 256;
    K.WrapDrops(high * 256, Wrap64(y) * 256);
  }

  /** Eight zero bytes clear SCAN_CODE, whatever it was. */
  lemma EightZeros(c: nat)
    ensures Wrap64(K.Shifted(c, 7) * 256) == 0
  {
    K.TopByte(c);
    K.WrapDrops(c, 0);
  }

  predicate Shifting(code: nat, c: nat, j: nat) {
    if j == 0 then code == c else code == Wrap64(K.Shifted(c, j - 1) * 256)
  }

  lemma ShiftOnce(code: nat, c: nat, j: nat)
    requires Shifting(code, c, j)
    ensures FeedByte(code, 0).Partial? ==> Shifting(FeedByte(code, 0).code, c, j + 1)
  {
    K.FeedCode(code, 0, Wrap64(code * 256));
    if j > 0 {
      WrapTwice(K.Shifted(c, j - 1) * 256);
    }
  }

  lemma FedStep(s: State, p: nat, n: nat, feed: Feed, c: nat, j: nat) returns (m: nat)
    requires Inv(s) && s.fault.None? && Waits(s, p, n) && !feed.Invalid?
    requires feed.Partial? ==> Shifting(feed.code, c, j + 1)
    ensures var t := OnFeed(s, feed);
            && Inv(t) && t.fault.None? && m <= n
            && (p !in t.blocking || (Waits(t, p, m) && (t.scanCode == 0 || Shifting(t.scanCode, c, j + 1))))
  {
    ReaderFed(s, p, n, feed);
    m := if feed.Event? && Typed(s.pressed, feed.event).Some? then n - 1 else n;
  }

  lemma HarmlessByte(code: nat, c: nat, j: nat) returns (b: Byte)
    requires Shifting(code, c, j)
    ensures !FeedByte(code, b).Invalid?
    ensures FeedByte(code, b).Partial? ==> Shifting(FeedByte(code, b).code, c, j + 1)
  {
    ShiftOnce(code, c, j);
    if FeedByte(code, 0).Invalid? {
      ZeroOrQ(code);
      return 0x10;
    }
    return 0;
  }

  /** One harmless byte towards rest. */
  lemma ZeroStep(s: State, p: nat, n: nat, c: nat, j: nat) returns (b: Byte, m: nat)
    requires Inv(s) && s.fault.None? && Waits(s, p, n) && Shifting(s.scanCode, c, j)
    ensures var t := Next(s, Key(b));
            && Inv(t) && t.fault.None? && m <= n
            && (p !in t.blocking || (Waits(t, p, m) && (t.scanCode == 0 || Shifting(t.scanCode, c, j + 1))))
  {
    b := HarmlessByte(s.scanCode, c, j);
    m := FedStep(s, p, n, FeedByte(s.scanCode, b), c, j);
  }

  /** Zero bytes bring the decoder to rest, by clearing it or by an event on the way, j of them done. */
  lemma ToRest(s: State, p: nat, n: nat, c: nat, j: nat) returns (steps: seq<Step>, m: nat)
    requires Inv(s) && s.fault.None? && Waits(s, p, n) && j <= 8 && Shifting(s.scanCode, c, j)
    ensures var e := Run(s, steps);
            && Inv(e) && e.fault.None? && m <= n
            && (p !in e.blocking || (Waits(e, p, m) && e.scanCode == 0))
    decreases 8 - j
  {
    if j == 8 {
      EightZeros(c);
      return [], n;
    }
    var b;
    b, m := ZeroStep(s, p, n, c, j);
    var t := Next(s, Key(b));
    var rest := [];
    if p in t.blocking && t.scanCode != 0 {
      rest, m := ToRest(t, p, m, c, j + 1);
    }
    steps := [Key(b)] + rest;
    assert steps[1..] == rest;
  }

  /** At rest, the key Q types one character. */
  lemma PressQ(s: State, p: nat, n: nat)
    requires Inv(s) && s.fault.None? && Waits(s, p, n) && s.scanCode == 0
    ensures var t := Next(s, Key(0x10));
            && Inv(t) && t.fault.None?
            && (if n == 1 then p !in t.blocking else Waits(t, p, n - 1) && t.scanCode == 0)
  {
    var feed := FeedByte(s.scanCode, 0x10);
    assert feed == Event(0x10);
    assert Typed(s.pressed, 0x10).Some?;
    ReaderFed(s, p, n, feed);
  }

  lemma {:induction false} TypeAll(s: State, p: nat, n: nat) returns (steps: seq<Step>)
    requires Inv(s) && s.fault.None? && Waits(s, p, n) && s.scanCode == 0
    ensures p !in Run(s, steps).blocking
    decreases n
  {
    var t := Next(s, Key(0x10));
    PressQ(s, p, n);
    var rest := [];
    if n > 1 {
      rest := TypeAll(t, p, n - 1);
    }
    steps := [Key(0x10)] + rest;
    assert steps[1..] == rest;
  }

  lemma ReaderWakes(s: State, p: nat, n: nat) returns (steps: seq<Step>)
    requires Inv(s) && s.fault.None? && Waits(s, p, n)
    ensures p !in Run(s, steps).blocking
  {
    var first, m := ToRest(s, p, n, s.scanCode, 0);
    var rest := [];
    if p in Run(s, first).blocking {
      rest := TypeAll(Run(s, first), p, m);
    }
    steps := first + rest;
    RunConcat(s, first, rest);
  }

  // ---------------------------------------------------------------- stranded is for ever, and only that

  /** A blocked process stays blocked in every continuation exactly when it is stranded: no clock of
      its own is positive and it is not the reader of characters still to come. */
  lemma StrandedIff(s: State, p: nat)
    requires Inv(s) && s.fault.None? && p in s.blocking
    ensures Stranded(s, p) <==> forall steps :: p in Run(s, steps).blocking
  {
    if Stranded(s, p) {
      forall steps ensures p in Run(s, steps).blocking {
        StrandedForever(s, steps, p);
      }
    } else if s.gets.waiter == Some(p) && s.gets.already < s.gets.count {
      var steps := ReaderWakes(s, p, s.gets.count - s.gets.already);
      assert p !in Run(s, steps).blocking;
    } else {
      var c :| c in s.sleeping && c.process == p && c.countDown > 0;
      assert c == Clock(c.countDown, p);
      var steps := SleeperWakes(s, c.countDown, p);
      assert p !in Run(s, steps).blocking;
    }
  }
}
