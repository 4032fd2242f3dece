/**
 * Poll-driven push-button and switch devices of libs/button.py.
 *
 * Each device owns a `ButtonCore` (the fields `ButtonCore.__init__` sets,
 * shared by the subclasses because MicroPython does not mangle `__` names)
 * and the core owns the one `Event` record that every `update` overwrites.
 * The pin level and the tick read by `timestamp.now()` are parameters.
 * Each `update` is specified by a pure step function over a snapshot of the
 * device's fields; the properties of a poll are stated on those functions.
 */
module Buttons {
  import opened Wrappers
  import opened Timestamp
  import opened Debounce

  /** An event's flag set; update only ever sets the six flags below. */
  type Flags = bv16

  const Pressed: Flags := 2
  const Released: Flags := 4
  const Toggled: Flags := 8
  const LongPressed: Flags := 16
  const Clicked: Flags := 32
  const RepeatClicked: Flags := 64

  /** The initial `__event_mask`: nothing suppressed. */
  const NothingSuppressed: Flags := 0xFFFF

  /** Defaults of the constructors, in ticks (microseconds) and hertz. */
  const DefaultSampleRate: int := 200
  const DefaultLongPress: int := 550000
  const DefaultRepeatClick: int := 400000

  /** The sample rate a constructor uses: `f_sample`, 200 Hz when not given. */
  function SampleRate(fSample: Option<int>): int
  {
    if fSample.Some? then fSample.value else DefaultSampleRate
  }

  /** The pull configuration of the pin, which decides the default inversion. */
  datatype PinMode = PullUp | PullDown | NoPull

  /** The outcome of one classification cycle: a state and a set of flags. */
  class Event {
    var state: Option<bool>
    var evtType: Flags

    constructor (state: Option<bool>, evtType: Flags)
      ensures this.state == state && this.evtType == evtType
    {
      this.state := state;
      this.evtType := evtType;
    }

    method Reset(state: Option<bool>, evtType: Flags)
      modifies this
      ensures this.state == state && this.evtType == evtType
    {
      this.state := state;
      this.evtType := evtType;
    }

    /** Some flag is set. */
    predicate Active()
      reads this
    {
      evtType != 0
    }

    predicate IsPressed()
      reads this
    {
      evtType & Pressed != 0
    }

    predicate IsReleased()
      reads this
    {
      evtType & Released != 0
    }

    predicate IsToggled()
      reads this
    {
      evtType & Toggled != 0
    }

    predicate IsLongPressed()
      reads this
    {
      evtType & LongPressed != 0
    }

    predicate IsClicked()
      reads this
    {
      evtType & Clicked != 0
    }

    predicate IsRepeatClicked()
      reads this
    {
      evtType & RepeatClicked != 0
    }
  }

  /** Every flag `update` can set. */
  const AllFlags: Flags := Pressed | Released | Toggled | LongPressed | Clicked | RepeatClicked

  /**
   * An event whose flags come from the six (as every `update` leaves them)
   * is active exactly when one of the six queries answers true.
   */
  lemma ActiveIffSomeQuery(e: Event)
    requires e.evtType & !AllFlags == 0
    ensures e.Active() <==> (e.IsPressed() || e.IsReleased() || e.IsToggled()
                             || e.IsLongPressed() || e.IsClicked() || e.IsRepeatClicked())
  {
  }

  /** The six event flags are distinct single bits, so a combined set answers each query separately. */
  lemma FlagsAreDistinctBits(f: Flags, g: Flags)
    requires f in {Pressed, Released, Toggled, LongPressed, Clicked, RepeatClicked}
    requires g in {Pressed, Released, Toggled, LongPressed, Clicked, RepeatClicked}
    ensures f & (f - 1) == 0
    ensures (f & g != 0) <==> f == g
  {
  }

  /** What one poll of the sampler does with the register: whether a sample was due, the new `__t_last`, the filter. */
  datatype Sampled = Sampled(due: bool, tLast: Tick, filter: Filter)

  /**
   * The sampling step (`process_state`, and the same lines written inline in
   * each `update`): a sample is taken only when `t_sample` ticks have expired
   * since `t_last`, and then `t_last` moves on by exactly `t_sample`.
   */
  function Sample(tLast: Tick, tSample: Word, buffer: Register, t: Tick, val: bool, prev: bool): (s: Sampled)
    ensures s.due == (Diff(t, tLast) >= tSample)
    ensures !s.due ==> s.tLast == tLast && s.filter == Filter(buffer, prev)
    ensures s.due ==> s.tLast == (tLast + tSample) % (Mask + 1) && s.filter == Step(Filter(buffer, prev), val)
  {
    if ExpiredAt(tLast, tSample, t) then
      Sampled(true, Advance(tLast, tSample), Step(Filter(buffer, prev), val))
    else
      Sampled(false, tLast, Filter(buffer, prev))
  }

  /** The fields of `ButtonCore`. */
  class ButtonCore {
    const inverted: bool
    var state: bool
    var tLast: Tick
    const tSample: Word
    var buffer: Register
    var eventMask: Flags
    const event: Event

    /** `ButtonCore.__init__`; `t` is the tick read by `timestamp.now()`. */
    constructor (pinMode: PinMode, inverted: Option<bool>, fSample: Option<int>, t: Tick)
      requires fSample.None? || fSample.value > 0
      ensures this.inverted == (if inverted.Some? then inverted.value else pinMode == PullUp)
      ensures !state && tLast == t && buffer == 0 && eventMask == NothingSuppressed
      ensures tSample == 1000000 / SampleRate(fSample)
      ensures fresh(event) && event.state == None && event.evtType == 0
    {
      this.inverted := if inverted.Some? then inverted.value else pinMode == PullUp;
      state := false;
      tLast := t;
      tSample := 1000000 / SampleRate(fSample);
      buffer := 0;
      eventMask := NothingSuppressed;
      event := new Event(None, 0);
    }

    /** `core_reset(default_state)`: restart the register and the sampling grid at `t`. */
    method CoreReset(defaultState: bool, t: Tick)
      modifies this`state, this`tLast, this`buffer
      ensures state == defaultState && tLast == t && buffer == 0
    {
      state := defaultState;
      tLast := t;
      buffer := 0;
    }

    /** `filter_events(events)`: suppress the given flags from now on. */
    method FilterEvents(events: Flags)
      modifies this`eventMask
      ensures eventMask == NothingSuppressed ^ events
      ensures eventMask & events == 0 && eventMask | events == NothingSuppressed
    {
      eventMask := NothingSuppressed ^ events;
    }

    /**
     * `process_state(t, val, init_state)`: take a sample if one is due and
     * report the filtered state and whether it differs from `initState`.
     */
    method ProcessState(t: Tick, val: bool, initState: bool) returns (newState: bool, changed: bool)
      modifies this`tLast, this`buffer
      ensures var s := Sample(old(tLast), tSample, old(buffer), t, val, initState);
              tLast == s.tLast && buffer == s.filter.buffer && newState == s.filter.state
      ensures changed == (newState != initState)
    {
      var tLast0 := tLast;
      if ExpiredAt(tLast0, tSample, t) {
        tLast := Advance(tLast0, tSample);
        var st := initState;
        var buf := buffer;
        buf := NextRegister(buf, val);
        if buf == BufferMask && !st {
          st := true;
        } else if buf == 0 && st {
          st := false;
        }
        buffer := buf;
        return st, st != initState;
      }
      return initState, false;
    }
  }

  /** A snapshot of every field a `Button.update` reads or writes. */
  datatype ButtonView = ButtonView(
    state: bool, tLast: Tick, buffer: Register, eventMask: Flags,
    tChanged: Tick, tLastClick: Tick, longPressed: bool,
    eventState: Option<bool>, flags: Flags)

  /** The fields of a `Button` that never change after construction. */
  datatype ButtonConfig = ButtonConfig(inverted: bool, tSample: Word, tLongPress: Word, tRepeatClick: Word)

  /** A poll: the tick read by `timestamp.now()` and the raw pin level. */
  datatype Poll = Poll(t: Tick, level: bool)

  /**
   * The long-press check that opens `Button.update`: the flags start empty
   * and, while the filtered state is pressed and no long press has been
   * reported, LongPressed is raised once `t_long_press` ticks have passed
   * since the last edge.
   */
  function ButtonHold(v: ButtonView, c: ButtonConfig, t: Tick): ButtonView
  {
    if v.state && !v.longPressed && ExpiredAt(v.tChanged, c.tLongPress, t) then
      v.(longPressed := true, flags := LongPressed & v.eventMask)
    else
      v.(flags := 0)
  }

  /**
   * The classification of a filtered edge to `state` in `Button.update`:
   * the event takes the new state, the press timer restarts, and the flags
   * gathered so far are replaced by Pressed, or by Released with a click
   * unless the press was long.
   */
  function ButtonReport(u: ButtonView, c: ButtonConfig, t: Tick, state: bool): ButtonView
  {
    if state then
      u.(state := true, eventState := Some(true), tChanged := t, flags := Pressed & u.eventMask)
    else if u.longPressed then
      u.(state := false, eventState := Some(false), tChanged := t, flags := Released & u.eventMask)
    else
      var click := if ExpiredAt(u.tLastClick, c.tRepeatClick, t) then Clicked else RepeatClicked;
      u.(state := false, eventState := Some(false), tChanged := t, tLastClick := t, flags := (Released | click) & u.eventMask)
  }

  /**
   * The rest of `Button.update`: the sampling step and, on a filtered edge,
   * the classification that replaces the flags gathered so far.
   */
  function ButtonEdge(w: ButtonView, c: ButtonConfig, t: Tick, level: bool): ButtonView
  {
    var s := Sample(w.tLast, c.tSample, w.buffer, t, c.inverted != level, w.state);
    var u := w.(tLast := s.tLast, buffer := s.filter.buffer);
    if s.filter.state == w.state then u else ButtonReport(u, c, t, s.filter.state)
  }

  /**
   * One `Button.update` on a snapshot: the long-press check, then the
   * sampling step and the classification of a filtered edge. Its properties
   * are the lemmas that follow it.
   */
  function ButtonStep(v: ButtonView, c: ButtonConfig, t: Tick, level: bool): ButtonView
  {
    ButtonEdge(ButtonHold(v, c, t), c, t, level)
  }

  /** The long-press check changes `__long_pressed` and the flags and nothing else. */
  lemma ButtonHoldChanges(v: ButtonView, c: ButtonConfig, t: Tick)
    ensures var l := v.longPressed || (v.state && Diff(t, v.tChanged) >= c.tLongPress);
            ButtonHold(v, c, t)
            == v.(longPressed := l, flags := if l && !v.longPressed then LongPressed & v.eventMask else 0)
  {
  }

  /** The sampling and classification half changes neither the mask nor `__long_pressed`. */
  lemma ButtonEdgeKeeps(w: ButtonView, c: ButtonConfig, t: Tick, level: bool)
    ensures var r := ButtonEdge(w, c, t, level);
            r.eventMask == w.eventMask && r.longPressed == w.longPressed
  {
  }

  /** Every flag an update sets is allowed by `__event_mask`, and the mask itself is never changed by an update. */
  lemma ButtonStepRespectsMask(v: ButtonView, c: ButtonConfig, t: Tick, level: bool)
    ensures var r := ButtonStep(v, c, t, level);
            r.eventMask == v.eventMask && r.flags & !v.eventMask == 0
  {
    ButtonHoldChanges(v, c, t);
    ButtonEdgeKeeps(ButtonHold(v, c, t), c, t, level);
  }

  /**
   * The register and the filtered state move only by the sampling step: a
   * sample of the (inverted) pin level is taken exactly when `t_sample`
   * ticks have expired since `__t_last`, which then moves on by `t_sample`.
   */
  lemma ButtonStepSamples(v: ButtonView, c: ButtonConfig, t: Tick, level: bool)
    ensures var r := ButtonStep(v, c, t, level);
            var due := Diff(t, v.tLast) >= c.tSample;
            (due ==> r.tLast == (v.tLast + c.tSample) % (Mask + 1)
                     && Filter(r.buffer, r.state) == Step(Filter(v.buffer, v.state), c.inverted != level))
            && (!due ==> r.tLast == v.tLast && r.buffer == v.buffer && r.state == v.state)
  {
    ButtonHoldChanges(v, c, t);
    var w := ButtonHold(v, c, t);
    var s := Sample(w.tLast, c.tSample, w.buffer, t, c.inverted != level, w.state);
    var r := ButtonStep(v, c, t, level);
    assert r.tLast == s.tLast && r.buffer == s.filter.buffer && r.state == s.filter.state;
  }

  /** `__long_pressed` is set exactly when a held press has lasted `t_long_press`, and stays set. */
  lemma ButtonStepLongPress(v: ButtonView, c: ButtonConfig, t: Tick, level: bool)
    ensures ButtonStep(v, c, t, level).longPressed
            == (v.longPressed || (v.state && Diff(t, v.tChanged) >= c.tLongPress))
  {
    ButtonHoldChanges(v, c, t);
    ButtonEdgeKeeps(ButtonHold(v, c, t), c, t, level);
  }

  /**
   * The flags of one update: a filtered press gives Pressed; a filtered
   * release gives Released with Clicked (or RepeatClicked within
   * `t_repeat_click` of the previous click) unless the press was long, in
   * which case Released alone and the click timer is untouched; with no
   * filtered edge only a new LongPressed can be raised. Edges restart the
   * press timer and report the new state in the event.
   */
  lemma ButtonStepFlags(v: ButtonView, c: ButtonConfig, t: Tick, level: bool)
    ensures var r := ButtonStep(v, c, t, level);
            (r.state && !v.state ==>
               r.flags == Pressed & v.eventMask && r.eventState == Some(true)
               && r.tChanged == t && r.tLastClick == v.tLastClick)
            && (!r.state && v.state && !r.longPressed ==>
               r.flags == (Released | (if Diff(t, v.tLastClick) >= c.tRepeatClick then Clicked else RepeatClicked)) & v.eventMask
               && r.eventState == Some(false) && r.tChanged == t && r.tLastClick == t)
            && (!r.state && v.state && r.longPressed ==>
               r.flags == Released & v.eventMask && r.eventState == Some(false)
               && r.tChanged == t && r.tLastClick == v.tLastClick)
            && (r.state == v.state ==>
               r.flags == (if r.longPressed && !v.longPressed then LongPressed else 0) & v.eventMask
               && r.eventState == v.eventState && r.tChanged == v.tChanged && r.tLastClick == v.tLastClick)
  {
    ButtonHoldChanges(v, c, t);
    var w := ButtonHold(v, c, t);
    var s := Sample(w.tLast, c.tSample, w.buffer, t, c.inverted != level, w.state);
    var u := w.(tLast := s.tLast, buffer := s.filter.buffer);
    var r := ButtonStep(v, c, t, level);
    if s.filter.state == w.state {
      assert r == u;
    } else {
      assert r == ButtonReport(u, c, t, s.filter.state);
    }
  }

  /** The button after a sequence of polls, oldest first. */
  function ButtonRun(v: ButtonView, c: ButtonConfig, polls: seq<Poll>): ButtonView
  {
    if |polls| == 0 then v
    else
      var last := polls[|polls| - 1];
      ButtonStep(ButtonRun(v, c, polls[..|polls| - 1]), c, last.t, last.level)
  }

  /**
   * Once `__long_pressed` is set, no later update clears it: no further
   * LongPressed is raised and no release is ever classified as a click.
   */
  lemma {:induction false} LongPressLatchSticks(v: ButtonView, c: ButtonConfig, polls: seq<Poll>)
    requires v.longPressed
    ensures ButtonRun(v, c, polls).longPressed
    ensures |polls| > 0 ==> ButtonRun(v, c, polls).flags & (LongPressed | Clicked | RepeatClicked) == 0
  {
    if |polls| > 0 {
      var prefix := polls[..|polls| - 1];
      LongPressLatchSticks(v, c, prefix);
      ButtonStepLongPress(ButtonRun(v, c, prefix), c, polls[|polls| - 1].t, polls[|polls| - 1].level);
      ButtonStepFlags(ButtonRun(v, c, prefix), c, polls[|polls| - 1].t, polls[|polls| - 1].level);
    }
  }

  /** No sequence of updates changes `__event_mask`. */
  lemma {:induction false} ButtonRunKeepsMask(v: ButtonView, c: ButtonConfig, polls: seq<Poll>)
    ensures ButtonRun(v, c, polls).eventMask == v.eventMask
  {
    if |polls| > 0 {
      var prefix := polls[..|polls| - 1];
      ButtonRunKeepsMask(v, c, prefix);
      ButtonStepRespectsMask(ButtonRun(v, c, prefix), c, polls[|polls| - 1].t, polls[|polls| - 1].level);
    }
  }

  /**
   * Suppressing flags changes only the flags: every other field evolves as
   * with nothing suppressed, and each poll's flags are the unsuppressed flags
   * ANDed with the mask.
   */
  lemma {:induction false} ButtonMaskOnlyFilters(v: ButtonView, c: ButtonConfig, polls: seq<Poll>, mask: Flags)
    ensures var a := ButtonRun(v.(eventMask := mask), c, polls);
            var b := ButtonRun(v.(eventMask := NothingSuppressed), c, polls);
            a.(flags := 0) == b.(eventMask := mask, flags := 0)
            && (|polls| > 0 ==> a.flags == b.flags & mask)
  {
    if |polls| > 0 {
      var prefix := polls[..|polls| - 1];
      ButtonMaskOnlyFilters(v, c, prefix, mask);
      ButtonRunKeepsMask(v.(eventMask := mask), c, prefix);
      ButtonRunKeepsMask(v.(eventMask := NothingSuppressed), c, prefix);
      StepMaskOnlyFilters(ButtonRun(v.(eventMask := mask), c, prefix),
                          ButtonRun(v.(eventMask := NothingSuppressed), c, prefix),
                          c, polls[|polls| - 1], mask);
    }
  }

  lemma StepMaskOnlyFilters(a: ButtonView, b: ButtonView, c: ButtonConfig, p: Poll, mask: Flags)
    requires a.eventMask == mask && b.eventMask == NothingSuppressed
    requires a.(flags := 0) == b.(eventMask := mask, flags := 0)
    ensures var a' := ButtonStep(a, c, p.t, p.level);
            var b' := ButtonStep(b, c, p.t, p.level);
            a'.(flags := 0) == b'.(eventMask := mask, flags := 0) && a'.flags == b'.flags & mask
  {
    ButtonStepRespectsMask(a, c, p.t, p.level);
    ButtonStepRespectsMask(b, c, p.t, p.level);
    ButtonStepSamples(a, c, p.t, p.level);
    ButtonStepSamples(b, c, p.t, p.level);
    ButtonStepLongPress(a, c, p.t, p.level);
    ButtonStepLongPress(b, c, p.t, p.level);
    ButtonStepFlags(a, c, p.t, p.level);
    ButtonStepFlags(b, c, p.t, p.level);
  }

  /** `Button`: a momentary push-button with long-press, click and repeat-click detection. */
  class Button {
    const core: ButtonCore
    var tChanged: Tick
    var tLastClick: Tick
    const tLongPress: Word
    const tRepeatClick: Word
    var longPressed: bool
    /** `__state`: written by `reset` and read by nothing (None until the first reset). */
    var savedState: Option<bool>

    function View(): ButtonView
      reads this, core, core.event
    {
      ButtonView(core.state, core.tLast, core.buffer, core.eventMask,
                 tChanged, tLastClick, longPressed, core.event.state, core.event.evtType)
    }

    function Config(): ButtonConfig
      reads this, core
    {
      ButtonConfig(core.inverted, core.tSample, tLongPress, tRepeatClick)
    }

    /**
     * `Button.__init__`: `tCore` is the tick read by `ButtonCore.__init__`,
     * `t` the one read afterwards for the press and click timers.
     */
    constructor (pinMode: PinMode, inverted: Option<bool>, fSample: Option<int>,
                 tLongPress: Option<int>, tRepeatClick: Option<int>, tCore: Tick, t: Tick)
      requires fSample.None? || fSample.value > 0
      ensures fresh(core) && fresh(core.event)
      ensures core.inverted == (if inverted.Some? then inverted.value else pinMode == PullUp)
      ensures core.tSample == 1000000 / SampleRate(fSample)
      ensures View() == ButtonView(false, tCore, 0, NothingSuppressed, t, t, false, None, 0)
      ensures this.tLongPress == ToWord(if tLongPress.Some? then tLongPress.value else DefaultLongPress)
      ensures this.tRepeatClick == ToWord(if tRepeatClick.Some? then tRepeatClick.value else DefaultRepeatClick)
      ensures savedState == None
    {
      core := new ButtonCore(pinMode, inverted, fSample, tCore);
      tChanged := t;
      tLastClick := t;
      this.tLongPress := ToWord(if tLongPress.Some? then tLongPress.value else DefaultLongPress);
      this.tRepeatClick := ToWord(if tRepeatClick.Some? then tRepeatClick.value else DefaultRepeatClick);
      longPressed := false;
      savedState := None;
    }

    /**
     * `Button.reset(default_state)`: `core_reset()` is called without an
     * argument, so the filtered state becomes false whatever `defaultState`
     * is; `defaultState`, or the current pin level, only lands in `__state`.
     */
    method Reset(defaultState: Option<bool>, tCore: Tick, t: Tick, level: bool)
      modifies core`state, core`tLast, core`buffer, this`tChanged, this`tLastClick, this`longPressed, this`savedState
      ensures !core.state && core.tLast == tCore && core.buffer == 0
      ensures tChanged == t && tLastClick == t && !longPressed
      ensures savedState == Some(if defaultState.Some? then defaultState.value else core.inverted != level)
    {
      core.CoreReset(false, tCore);
      tChanged := t;
      tLastClick := t;
      longPressed := false;
      if defaultState.None? {
        savedState := Some(core.inverted != level);
      } else {
        savedState := defaultState;
      }
    }

    /** `Button.update()` at tick `t` with the raw pin level `level`; returns the reused event. */
    method Update(t: Tick, level: bool) returns (e: Event)
      modifies core`state, core`tLast, core`buffer, core.event`state, core.event`evtType
      modifies this`tChanged, this`tLastClick, this`longPressed
      ensures e == core.event
      ensures View() == ButtonStep(old(View()), Config(), t, level)
    {
      e := core.event;
      CheckLongPress(t);
      SampleAndClassify(t, level);
    }

    /** The first half of `Button.update`. */
    method CheckLongPress(t: Tick)
      modifies core.event`evtType, this`longPressed
      ensures View() == ButtonHold(old(View()), Config(), t)
    {
      var e := core.event;
      e.evtType := 0;
      if core.state && !longPressed {
        var doLongPressed := ExpiredAt(tChanged, tLongPress, t);
        if doLongPressed {
          e.evtType := e.evtType | LongPressed;
          longPressed := true;
        }
        e.evtType := e.evtType & core.eventMask;
      }
    }

    /** The second half of `Button.update`. */
    method SampleAndClassify(t: Tick, level: bool)
      modifies core`state, core`tLast, core`buffer, core.event`state, core.event`evtType
      modifies this`tChanged, this`tLastClick, this`longPressed
      ensures View() == ButtonEdge(old(View()), Config(), t, level)
    {
      var buttonVal := core.inverted != level;
      var initState := core.state;
      var state, changed := core.ProcessState(t, buttonVal, initState);
      if changed {
        ReportEdge(t, state);
      }
    }

    /** The `if changed:` block of `Button.update`, for a filtered edge to `state`. */
    method ReportEdge(t: Tick, state: bool)
      modifies core`state, core.event`state, core.event`evtType
      modifies this`tChanged, this`tLastClick, this`longPressed
      ensures View() == ButtonReport(old(View()), Config(), t, state)
    {
      var e := core.event;
      e.state := Some(state);
      tChanged := t;
      if state {
        e.evtType := Pressed;
      } else {
        e.evtType := Released;
        if !longPressed {
          var repeatClick := !ExpiredAt(tLastClick, tRepeatClick, t);
          if repeatClick {
            e.evtType := e.evtType | RepeatClicked;
          } else {
            e.evtType := e.evtType | Clicked;
          }
          longPressed := false;
          tLastClick := t;
        }
      }
      core.state := state;
      e.evtType := e.evtType & core.eventMask;
    }
  }

  /** A snapshot of every field a `Toggle.update` reads or writes; `state` is the logical state. */
  datatype ToggleView = ToggleView(
    state: bool, lastState: bool, tLast: Tick, buffer: Register, eventMask: Flags,
    eventState: Option<bool>, flags: Flags)

  datatype ToggleConfig = ToggleConfig(inverted: bool, tSample: Word, onRelease: bool)

  /**
   * The `if changed:` block of `Toggle.update` for a filtered edge to
   * `state`: Pressed or Released, and on the press (or, with `on_release`,
   * on the release) Toggled and a flip of the logical state, which the
   * event then reports.
   */
  function ToggleReport(u: ToggleView, c: ToggleConfig, state: bool): ToggleView
  {
    if state then
      if c.onRelease then
        u.(lastState := true, eventState := Some(u.state), flags := Pressed & u.eventMask)
      else
        u.(lastState := true, state := !u.state, eventState := Some(!u.state), flags := (Pressed | Toggled) & u.eventMask)
    else
      if c.onRelease then
        u.(lastState := false, state := !u.state, eventState := Some(!u.state), flags := (Released | Toggled) & u.eventMask)
      else
        u.(lastState := false, eventState := Some(u.state), flags := Released & u.eventMask)
  }

  /**
   * One `Toggle.update` on a snapshot: the flags are cleared, a sample is
   * taken if due, and a filtered edge is classified. Its properties are the
   * lemmas that follow it.
   */
  function ToggleStep(v: ToggleView, c: ToggleConfig, t: Tick, level: bool): ToggleView
  {
    var s := Sample(v.tLast, c.tSample, v.buffer, t, c.inverted != level, v.lastState);
    var u := v.(tLast := s.tLast, buffer := s.filter.buffer, flags := 0);
    if s.filter.state == v.lastState then u else ToggleReport(u, c, s.filter.state)
  }

  /** The register and the filtered state of a toggle move only by the sampling step, as for a `Button`. */
  lemma ToggleStepSamples(v: ToggleView, c: ToggleConfig, t: Tick, level: bool)
    ensures var r := ToggleStep(v, c, t, level);
            var due := Diff(t, v.tLast) >= c.tSample;
            r.eventMask == v.eventMask
            && (due ==> r.tLast == (v.tLast + c.tSample) % (Mask + 1)
                        && Filter(r.buffer, r.lastState) == Step(Filter(v.buffer, v.lastState), c.inverted != level))
            && (!due ==> r.tLast == v.tLast && r.buffer == v.buffer && r.lastState == v.lastState)
  {
  }

  /**
   * Each filtered edge gives Pressed or Released, with Toggled and a flip of
   * the logical state on the press (or, with `on_release`, on the release);
   * the event then reports the logical state. Without an edge no flag is set.
   */
  lemma ToggleStepFlags(v: ToggleView, c: ToggleConfig, t: Tick, level: bool)
    ensures var r := ToggleStep(v, c, t, level);
            (r.lastState == v.lastState ==>
               r.flags == 0 && r.state == v.state && r.eventState == v.eventState)
            && (r.lastState != v.lastState ==>
               var toggles := r.lastState != c.onRelease;
               r.flags == ((if r.lastState then Pressed else Released) | (if toggles then Toggled else 0)) & v.eventMask
               && r.state == (v.state != toggles) && r.eventState == Some(r.state))
  {
  }

  function ToggleRun(v: ToggleView, c: ToggleConfig, polls: seq<Poll>): ToggleView
  {
    if |polls| == 0 then v
    else
      var last := polls[|polls| - 1];
      ToggleStep(ToggleRun(v, c, polls[..|polls| - 1]), c, last.t, last.level)
  }

  /** How many polls moved the filtered state to `to`. */
  function Edges(v: ToggleView, c: ToggleConfig, polls: seq<Poll>, to: bool): nat
  {
    if |polls| == 0 then 0
    else
      var before := ToggleRun(v, c, polls[..|polls| - 1]).lastState;
      var after := ToggleRun(v, c, polls).lastState;
      Edges(v, c, polls[..|polls| - 1], to) + (if before != after && after == to then 1 else 0)
  }

  lemma ParityStep(n: nat)
    ensures ((n + 1) % 2 == 1) == !(n % 2 == 1)
  {
  }

  /**
   * The logical state of a toggle flips once per filtered press (or, with
   * `on_release`, per filtered release), whatever flags are suppressed.
   */
  lemma {:induction false} ToggleParity(v: ToggleView, c: ToggleConfig, polls: seq<Poll>)
    ensures ToggleRun(v, c, polls).state == (v.state != (Edges(v, c, polls, !c.onRelease) % 2 == 1))
  {
    if |polls| > 0 {
      var prefix := polls[..|polls| - 1];
      ToggleParity(v, c, prefix);
      ToggleStepFlips(ToggleRun(v, c, prefix), c, polls[|polls| - 1]);
      EdgesLast(v, c, polls, !c.onRelease);
      ParityStep(Edges(v, c, prefix, !c.onRelease));
    }
  }

  /** One poll flips the logical state exactly on a filtered edge to the toggling level. */
  lemma ToggleStepFlips(before: ToggleView, c: ToggleConfig, p: Poll)
    ensures var after := ToggleStep(before, c, p.t, p.level);
            after.state == (before.state != (before.lastState != after.lastState && after.lastState == !c.onRelease))
  {
    ToggleStepFlags(before, c, p.t, p.level);
  }

  lemma EdgesLast(v: ToggleView, c: ToggleConfig, polls: seq<Poll>, to: bool)
    requires |polls| > 0
    ensures var prefix := polls[..|polls| - 1];
            var before := ToggleRun(v, c, prefix);
            var after := ToggleStep(before, c, polls[|polls| - 1].t, polls[|polls| - 1].level);
            ToggleRun(v, c, polls) == after
            && Edges(v, c, polls, to)
               == Edges(v, c, prefix, to) + (if before.lastState != after.lastState && after.lastState == to then 1 else 0)
  {
  }

  /** `Toggle`: a switch whose logical state flips on each press or on each release. */
  class Toggle {
    const core: ButtonCore
    const onRelease: bool
    var lastState: bool

    function View(): ToggleView
      reads this, core, core.event
    {
      ToggleView(core.state, lastState, core.tLast, core.buffer, core.eventMask,
                 core.event.state, core.event.evtType)
    }

    function Config(): ToggleConfig
      reads this, core
    {
      ToggleConfig(core.inverted, core.tSample, onRelease)
    }

    /** `Toggle.__init__`; `t` is the tick read by `ButtonCore.__init__`. */
    constructor (pinMode: PinMode, inverted: Option<bool>, fSample: Option<int>, onRelease: bool, t: Tick)
      requires fSample.None? || fSample.value > 0
      ensures fresh(core) && fresh(core.event)
      ensures core.inverted == (if inverted.Some? then inverted.value else pinMode == PullUp)
      ensures core.tSample == 1000000 / SampleRate(fSample) && this.onRelease == onRelease
      ensures View() == ToggleView(false, false, t, 0, NothingSuppressed, None, 0)
    {
      core := new ButtonCore(pinMode, inverted, fSample, t);
      this.onRelease := onRelease;
      lastState := false;
    }

    /** `Toggle.reset(default_state)`: both the logical and the filtered state become `defaultState`. */
    method Reset(defaultState: bool, t: Tick)
      modifies core`state, core`tLast, core`buffer, this`lastState
      ensures core.state == defaultState && lastState == defaultState
      ensures core.tLast == t && core.buffer == 0
    {
      core.CoreReset(defaultState, t);
      lastState := defaultState;
    }

    /** `Toggle.update()` at tick `t` with the raw pin level `level`; returns the reused event. */
    method Update(t: Tick, level: bool) returns (e: Event)
      modifies core`state, core`tLast, core`buffer, core.event`state, core.event`evtType, this`lastState
      ensures e == core.event
      ensures View() == ToggleStep(old(View()), Config(), t, level)
    {
      e := core.event;
      var buttonVal := core.inverted != level;
      var initState := lastState;
      e.evtType := 0;

      var state, changed := core.ProcessState(t, buttonVal, initState);
      if changed {
        ReportEdge(state);
      }
    }

    /** The `if changed:` block of `Toggle.update`, for a filtered edge to `state`. */
    method ReportEdge(state: bool)
      modifies core`state, core.event`state, core.event`evtType, this`lastState
      ensures View() == ToggleReport(old(View()), Config(), state)
    {
      var e := core.event;
      lastState := state;
      if state {
        e.evtType := Pressed;
        if !onRelease {
          e.evtType := e.evtType | Toggled;
          core.state := !core.state;
        }
      } else {
        e.evtType := Released;
        if onRelease {
          e.evtType := e.evtType | Toggled;
          core.state := !core.state;
        }
      }
      e.state := Some(core.state);
      e.evtType := e.evtType & core.eventMask;
    }
  }

  /** A snapshot of every field an `Unbuffered.update` reads or writes. */
  datatype UnbufferedView = UnbufferedView(state: bool, eventMask: Flags, eventState: Option<bool>, flags: Flags)

  /**
   * One `Unbuffered.update`: no sampling grid and no register; the state
   * follows the (inverted) pin level and every change is reported at once.
   */
  function UnbufferedStep(v: UnbufferedView, inverted: bool, level: bool): (r: UnbufferedView)
    ensures r.state == (inverted != level)
    ensures r.eventMask == v.eventMask
    ensures r.state != v.state ==>
              r.flags == (if r.state then Pressed else Released) & v.eventMask && r.eventState == Some(r.state)
    ensures r.state == v.state ==> r.flags == 0 && r.eventState == v.eventState
  {
    var state := inverted != level;
    if state != v.state then
      v.(state := state, eventState := Some(state), flags := (if state then Pressed else Released) & v.eventMask)
    else
      v.(flags := 0)
  }

  function UnbufferedRun(v: UnbufferedView, inverted: bool, levels: seq<bool>): UnbufferedView
  {
    if |levels| == 0 then v
    else UnbufferedStep(UnbufferedRun(v, inverted, levels[..|levels| - 1]), inverted, levels[|levels| - 1])
  }

  /**
   * With Pressed and Released not suppressed, an unbuffered switch reports
   * an event on a poll exactly when the pin level differs from the previous
   * poll's, however short the previous level lasted.
   */
  lemma {:induction false} EveryLevelChangeReported(v: UnbufferedView, inverted: bool, levels: seq<bool>)
    requires |levels| >= 2
    requires v.eventMask & (Pressed | Released) == Pressed | Released
    ensures UnbufferedRun(v, inverted, levels).flags != 0 <==> levels[|levels| - 1] != levels[|levels| - 2]
    ensures UnbufferedRun(v, inverted, levels).eventMask == v.eventMask
  {
    var n := |levels|;
    MaskKept(v, inverted, levels[..n - 1]);
    assert levels[..n - 1][..n - 2] == levels[..n - 2];
  }

  lemma {:induction false} MaskKept(v: UnbufferedView, inverted: bool, levels: seq<bool>)
    ensures UnbufferedRun(v, inverted, levels).eventMask == v.eventMask
  {
    if |levels| > 0 {
      MaskKept(v, inverted, levels[..|levels| - 1]);
    }
  }

  /** `Unbuffered`: a switch whose state follows the pin directly, without debouncing. */
  class Unbuffered {
    const core: ButtonCore

    function View(): UnbufferedView
      reads this, core, core.event
    {
      UnbufferedView(core.state, core.eventMask, core.event.state, core.event.evtType)
    }

    /** `Unbuffered.__init__`; `t` is the tick read by `ButtonCore.__init__`. */
    constructor (pinMode: PinMode, inverted: Option<bool>, fSample: Option<int>, t: Tick)
      requires fSample.None? || fSample.value > 0
      ensures fresh(core) && fresh(core.event)
      ensures core.inverted == (if inverted.Some? then inverted.value else pinMode == PullUp)
      ensures core.tLast == t && core.buffer == 0 && core.tSample == 1000000 / SampleRate(fSample)
      ensures View() == UnbufferedView(false, NothingSuppressed, None, 0)
    {
      core := new ButtonCore(pinMode, inverted, fSample, t);
    }

    /** `Unbuffered.reset(default_state)`. */
    method Reset(defaultState: bool, t: Tick)
      modifies core`state, core`tLast, core`buffer
      ensures core.state == defaultState && core.tLast == t && core.buffer == 0
    {
      core.CoreReset(defaultState, t);
    }

    /** `Unbuffered.update()` with the raw pin level `level`; it reads no clock and leaves the register alone. */
    method Update(level: bool) returns (e: Event)
      modifies core`state, core.event`state, core.event`evtType
      ensures e == core.event
      ensures View() == UnbufferedStep(old(View()), core.inverted, level)
    {
      e := core.event;
      var state := core.inverted != level;
      if state != core.state {
        e.state := Some(state);
        if state {
          e.evtType := Pressed;
        } else {
          e.evtType := Released;
        }
        e.evtType := e.evtType & core.eventMask;
        core.state := state;
      } else {
        e.evtType := 0;
      }
    }
  }
}
