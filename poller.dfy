/** The polling logic of the sketch's `loop()` (main.cpp:56-119): the
    global `lastTime` gates a poll every `timerDelay` milliseconds using
    unsigned 32-bit subtraction; a poll redraws the display only when WiFi is
    connected and the HTTP response code is positive, and `lastTime` is
    refreshed after every attempt, whatever its outcome. */
module Poller {
  import opened ArduinoString
  import opened Metar

  /** An ESP32 `unsigned long` (32 bits), the type of `millis()` and `lastTime`. */
  newtype u32 = x: int | 0 <= x < 0x1_0000_0000

  /** `timerDelay`: the minimum time between polls, in milliseconds. */
  const TimerDelay: u32 := 60000

  /** The initial `lastTime`: the first call polls at once when `setup()`
      returns before `millis()` reaches 59000; after a longer WiFi connect
      the first poll waits until `millis()` passes 119000. */
  const InitialLastTime: u32 := 59000

  /** `millis() - lastTime` computed in unsigned 32-bit arithmetic. */
  function Elapsed(now: u32, last: u32): (e: u32)
    ensures now >= last ==> e as int == now as int - last as int
    ensures now < last ==> e as int == now as int - last as int + U32
  {
    ((now as int - last as int) % U32) as u32
  }

  /** The guard of main.cpp:58: strictly more than `timerDelay` has elapsed. */
  predicate Due(now: u32, last: u32): (d: bool)
    ensures now >= last ==> (d <==> now as int > last as int + TimerDelay as int)
    ensures now < last ==> (d <==> now as int + U32 > last as int + TimerDelay as int)
  {
    Elapsed(now, last) > TimerDelay
  }

  /** What the loop keeps between calls: `lastTime` and the frame on the display. */
  datatype PollState = PollState(lastTime: u32, frame: seq<Row>)

  /** What one call of `loop()` observes: the first `millis()` reading, the
      WiFi status, the HTTP response code and body, and the second
      `millis()` reading that is stored into `lastTime` (main.cpp:118). */
  datatype Event = Event(now: u32, connected: bool, responseCode: int, body: string, later: u32)

  /** The attempt succeeds: WiFi is up and the response code is positive. */
  predicate Succeeds(e: Event)
  {
    e.connected && e.responseCode > 0
  }

  /** One call of `loop()` as a function of the state it starts from: nothing
      changes unless the interval has elapsed; an attempt always stores the
      second clock reading; the frame changes only on a successful attempt,
      and then to the frame of the new body. */
  function Step(s: PollState, e: Event, showAltimeter: string -> string): (r: PollState)
    ensures !Due(e.now, s.lastTime) ==> r == s
    ensures Due(e.now, s.lastTime) ==> r.lastTime == e.later
    ensures r.frame == if Due(e.now, s.lastTime) && Succeeds(e) then Frame(e.body, showAltimeter) else s.frame
  {
    if !Due(e.now, s.lastTime) then s
    else PollState(e.later, if Succeeds(e) then Frame(e.body, showAltimeter) else s.frame)
  }

  /** Successive calls of `loop()`. */
  function Run(s: PollState, events: seq<Event>, showAltimeter: string -> string): PollState
    decreases |events|
  {
    if events == [] then s
    else Step(Run(s, events[..|events| - 1], showAltimeter), events[|events| - 1], showAltimeter)
  }

  /** Call number `k` of a run redraws the display. */
  predicate DrawsAt(s: PollState, events: seq<Event>, k: int, showAltimeter: string -> string)
    requires 0 <= k < |events|
  {
    Succeeds(events[k]) && Due(events[k].now, Run(s, events[..k], showAltimeter).lastTime)
  }

  /** Whether a call redraws depends only on the calls up to it. */
  lemma DrawsAtPrefix(s: PollState, events: seq<Event>, n: int, k: int, showAltimeter: string -> string)
    requires 0 <= k < n <= |events|
    ensures DrawsAt(s, events, k, showAltimeter) == DrawsAt(s, events[..n], k, showAltimeter)
  {
    assert events[..n][..k] == events[..k];
  }

  /** The index of the last call of a run that redraws, or -1 if none does. */
  function LastDraw(s: PollState, events: seq<Event>, showAltimeter: string -> string): (k: int)
    ensures -1 <= k < |events|
    ensures k >= 0 ==> DrawsAt(s, events, k, showAltimeter)
    ensures forall m :: k < m < |events| ==> !DrawsAt(s, events, m, showAltimeter)
    decreases |events|
  {
    if events == [] then -1
    else if DrawsAt(s, events, |events| - 1, showAltimeter) then |events| - 1
    else
      var k := LastDraw(s, events[..|events| - 1], showAltimeter);
      assert forall m :: 0 <= m < |events| - 1 ==>
        DrawsAt(s, events, m, showAltimeter) == DrawsAt(s, events[..|events| - 1], m, showAltimeter) by {
        forall m | 0 <= m < |events| - 1 {
          DrawsAtPrefix(s, events, |events| - 1, m, showAltimeter);
        }
      }
      k
  }

  /** Any `millis()` below 59000 (just after reset, or after the counter
      wraps) and any above 119000 triggers a poll from the initial state;
      nothing in between does. */
  lemma StartupPoll(now: u32)
    ensures Due(now, InitialLastTime) <==> now < 59000 || now > 119000
  {
  }

  /** After a run, the display shows the frame of the last call that redrew
      it, or the frame it started with if no call did. */
  lemma {:induction false} RunShowsLastDraw(s: PollState, events: seq<Event>, showAltimeter: string -> string)
    ensures var k := LastDraw(s, events, showAltimeter);
      Run(s, events, showAltimeter).frame == if k == -1 then s.frame else Frame(events[k].body, showAltimeter)
  {
    if events != [] {
      var n := |events|;
      var prefix := events[..n - 1];
      var e := events[n - 1];
      var before := Run(s, prefix, showAltimeter);
      assert Run(s, events, showAltimeter) == Step(before, e, showAltimeter);
      RunShowsLastDraw(s, prefix, showAltimeter);
      if DrawsAt(s, events, n - 1, showAltimeter) {
        assert Step(before, e, showAltimeter).frame == Frame(e.body, showAltimeter);
      } else {
        assert Step(before, e, showAltimeter).frame == before.frame;
        var k := LastDraw(s, prefix, showAltimeter);
        assert LastDraw(s, events, showAltimeter) == k;
        assert k != -1 ==> events[k] == prefix[k];
      }
    }
  }

  /** Calls whose first clock reading is at most `timerDelay` past
      `lastTime`, in unsigned arithmetic and so also across the wrap of
      `millis()`, change nothing: after any attempt, successful or not, the
      next one waits a full interval. */
  lemma {:induction false} RunQuiet(s: PollState, events: seq<Event>, showAltimeter: string -> string)
    requires forall k :: 0 <= k < |events| ==> Elapsed(events[k].now, s.lastTime) <= TimerDelay
    ensures Run(s, events, showAltimeter) == s
  {
    if events != [] {
      var n := |events|;
      RunQuiet(s, events[..n - 1], showAltimeter);
      assert !Due(events[n - 1].now, s.lastTime);
    }
  }

  /** The board: `lastTime` and the frame currently on the display. */
  class Station {
    var lastTime: u32
    var frame: seq<Row>
    /** The altimeter formatting of the Arduino library (left opaque). */
    const showAltimeter: string -> string

    /** The state after `setup()`; its own "Connecting" screens are not modelled. */
    constructor (showAltimeter: string -> string)
      ensures lastTime == InitialLastTime && frame == [] && this.showAltimeter == showAltimeter
    {
      lastTime := InitialLastTime;
      frame := [];
      this.showAltimeter := showAltimeter;
    }

    function Snapshot(): PollState
      reads this
    {
      PollState(lastTime, frame)
    }

    /** One call of `loop()`. Returns whether a new frame was drawn. */
    method Tick(now: u32, connected: bool, responseCode: int, body: string, later: u32)
      returns (drawn: bool)
      modifies this
      ensures drawn <==> Due(now, old(lastTime)) && connected && responseCode > 0
      ensures lastTime == if Due(now, old(lastTime)) then later else old(lastTime)
      ensures frame == if drawn then Frame(body, showAltimeter) else old(frame)
      ensures Snapshot() == Step(old(Snapshot()), Event(now, connected, responseCode, body, later), showAltimeter)
    {
      drawn := false;
      ghost var e := Event(now, connected, responseCode, body, later);
      assert Succeeds(e) <==> connected && responseCode > 0;
      if Due(now, lastTime) {
        if connected {
          if responseCode > 0 {
            frame := Frame(body, showAltimeter);
            drawn := true;
          }
        }
        lastTime := later;
      }
    }
  }
}
