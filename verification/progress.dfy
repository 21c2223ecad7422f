/**
 The throttled progress display of a foreground scan: a two-field state
 machine (time of the last display, length of the last text) that writes a
 new "files scanned" line over the previous one at most once per interval.
 Time is counted in whole ticks of the clock.
 */
module Progress {
  import opened Text

  const DefaultInterval: int := 5

  /** The backspace control character, `\b` in the source. */
  const Backspace: char := '\U{8}'

  /** The display's state: its interval, when it last wrote and how long that text was. */
  datatype Display = Display(interval: int, lastDisplay: int, lastLen: nat)

  /** A fresh display: it has never written, and counts its last write at tick 0. */
  function NewDisplay(interval: int): (d: Display)
    ensures d.interval == interval && d.lastDisplay == 0 && d.lastLen == 0
  {
    Display(interval, 0, 0)
  }

  /** The text shown for `scanned` files of folder `name`. */
  function ProgressText(name: string, scanned: nat): (text: string)
  {
    "Scanning '" + name + "': " + NatToString(scanned) + " files scanned"
  }

  /**
   One progress call. `now` is the clock read that decides whether to write,
   `stamp` the clock read taken after writing, which becomes the time of the
   last display. Inside the interval nothing is written and nothing changes;
   past it, the previous text's length in backspaces and then the new text
   are written.
   */
  function Call(d: Display, now: int, stamp: int, name: string, scanned: nat): (r: (Display, string))
    ensures r.0.interval == d.interval
    ensures now - d.lastDisplay <= d.interval ==> r == (d, "")
    ensures now - d.lastDisplay > d.interval ==>
              r.1 == Repeat(Backspace, d.lastLen) + ProgressText(name, scanned) &&
              r.0.lastDisplay == stamp && r.0.lastLen == |ProgressText(name, scanned)|
  {
    if now - d.lastDisplay > d.interval then
      var progress := ProgressText(name, scanned);
      (Display(d.interval, stamp, |progress|), Repeat(Backspace, d.lastLen) + progress)
    else
      (d, "")
  }

  // ---------------------------------------------------------------------------
  // What the writes look like on a terminal line

  /** A terminal line and its cursor column. */
  datatype Screen = Screen(line: string, cursor: nat)

  /** One character: a backspace moves the cursor left, anything else overwrites or extends. */
  function Put(sc: Screen, c: char): (sc': Screen)
  {
    if c == Backspace then Screen(sc.line, if sc.cursor > 0 then sc.cursor - 1 else 0)
    else if sc.cursor < |sc.line| then Screen(sc.line[sc.cursor := c], sc.cursor + 1)
    else Screen(sc.line + [c], sc.cursor + 1)
  }

  function Write(sc: Screen, s: string): (sc': Screen)
    decreases |s|
  {
    if |s| == 0 then sc else Write(Put(sc, s[0]), s[1..])
  }

  /** `k` backspaces take the cursor back `k` columns and leave the line as it was. */
  lemma {:induction false} WriteBackspaces(line: string, cursor: nat, k: nat)
    requires k <= cursor
    ensures Write(Screen(line, cursor), Repeat(Backspace, k)) == Screen(line, cursor - k)
  {
    if k > 0 {
      var s := Repeat(Backspace, k);
      assert s[1..] == Repeat(Backspace, k - 1);
      WriteBackspaces(line, cursor - 1, k - 1);
    }
  }

  /** Text without backspaces overwrites the line from the cursor on, extending it if needed. */
  lemma {:induction false} WriteOver(line: string, cursor: nat, w: string)
    requires cursor <= |line| && Backspace !in w
    ensures var sc := Write(Screen(line, cursor), w);
            sc.cursor == cursor + |w| &&
            |sc.line| == (if cursor + |w| <= |line| then |line| else cursor + |w|) &&
            sc.line[..cursor] == line[..cursor] &&
            sc.line[cursor..cursor + |w|] == w &&
            sc.line[cursor + |w|..] == (if cursor + |w| <= |line| then line[cursor + |w|..] else "")
    decreases |w|
  {
    if |w| > 0 {
      var next := Put(Screen(line, cursor), w[0]);
      assert next.cursor == cursor + 1 && |next.line| >= cursor + 1;
      assert next.line[..cursor] == line[..cursor];
      assert next.line[cursor] == w[0];
      assert next.line[cursor + 1..] == (if cursor + 1 <= |line| then line[cursor + 1..] else "");
      assert Backspace !in w[1..];
      WriteOver(next.line, cursor + 1, w[1..]);
      var sc := Write(next, w[1..]);
      assert sc.line[cursor..cursor + |w|] == [w[0]] + w[1..] by {
        assert sc.line[..cursor + 1][cursor] == next.line[..cursor + 1][cursor];
        assert sc.line[cursor] == w[0];
        assert sc.line[cursor + 1..cursor + |w|] == w[1..];
        var seg := sc.line[cursor..cursor + |w|];
        assert |seg| == |w| && seg[0] == sc.line[cursor];
        assert seg[1..] == sc.line[cursor + 1..cursor + |w|];
        assert seg == [seg[0]] + seg[1..];
      }
      assert [w[0]] + w[1..] == w;
    }
  }

  lemma NoBackspaceInDigits(s: string)
    requires AllDigits(s)
    ensures Backspace !in s
  {
  }

  /** Backspacing over the last `k` columns and writing `text` lays `text` over the line's start. */
  lemma EraseAndWrite(sc: Screen, text: string)
    requires sc.cursor <= |sc.line| && Backspace !in text
    ensures var sc' := Write(sc, Repeat(Backspace, sc.cursor) + text);
            && sc'.cursor == |text| <= |sc'.line|
            && sc'.line[..|text|] == text
            && (|text| >= |sc.line| ==> sc'.line == text)
            && (|text| < |sc.line| ==> sc'.line[|text|..] == sc.line[|text|..])
  {
    WriteAppend(sc, Repeat(Backspace, sc.cursor), text);
    WriteBackspaces(sc.line, sc.cursor, sc.cursor);
    WriteOver(sc.line, 0, text);
  }

  /**
   On a terminal line whose cursor sits after the last text written, a call
   that writes leaves the new text at the start of that text's columns and
   the cursor right after it, so the display can go on. The backspaces only
   move the cursor: the new text covers the old one completely when it is at
   least as long, and otherwise the old text's tail stays visible after it.
   */
  lemma CallOnScreen(d: Display, sc: Screen, now: int, stamp: int, name: string, scanned: nat)
    requires sc.cursor == d.lastLen <= |sc.line|
    requires Backspace !in name
    ensures var (d', out) := Call(d, now, stamp, name, scanned);
            var sc' := Write(sc, out);
            var text := ProgressText(name, scanned);
            && sc'.cursor == d'.lastLen <= |sc'.line|
            && (out == "" ==> sc' == sc)
            && (out != "" ==> sc'.line[..|text|] == text)
            && (out != "" && |text| >= |sc.line| ==> sc'.line == text)
            && (out != "" && |text| < |sc.line| ==> sc'.line[|text|..] == sc.line[|text|..])
  {
    var text := ProgressText(name, scanned);
    if now - d.lastDisplay > d.interval {
      NoBackspaceInDigits(NatToString(scanned));
      assert Backspace !in text;
      EraseAndWrite(sc, text);
    }
  }

  /** Writing two strings is writing one after the other. */
  lemma {:induction false} WriteAppend(sc: Screen, a: string, b: string)
    ensures Write(sc, a + b) == Write(Write(sc, a), b)
    decreases |a|
  {
    if |a| == 0 {
      assert a + b == b;
    } else {
      assert (a + b)[0] == a[0] && (a + b)[1..] == a[1..] + b;
      WriteAppend(Put(sc, a[0]), a[1..], b);
    }
  }

  // ---------------------------------------------------------------------------
  // A run of calls

  /** One progress event: the two clock reads of the call and its arguments. */
  datatype Tick = Tick(now: int, stamp: int, name: string, scanned: nat)

  /** The clock never goes back: within a call and from one call to the next. */
  predicate Monotone(ticks: seq<Tick>)
  {
    && (forall k :: 0 <= k < |ticks| ==> ticks[k].now <= ticks[k].stamp)
    && (forall k :: 0 <= k < |ticks| - 1 ==> ticks[k].stamp <= ticks[k + 1].now)
  }

  /** The state after a run of calls and the text each call wrote. */
  function Run(d: Display, ticks: seq<Tick>): (r: (Display, seq<string>))
    ensures |r.1| == |ticks|
    ensures r.0.interval == d.interval
  {
    if |ticks| == 0 then (d, [])
    else
      var prev := Run(d, ticks[..|ticks| - 1]);
      var t := ticks[|ticks| - 1];
      var step := Call(prev.0, t.now, t.stamp, t.name, t.scanned);
      (step.0, prev.1 + [step.1])
  }

  /** With a clock that never goes back, every call ends no later than any later call starts. */
  lemma {:induction false} MonotoneOrdered(ticks: seq<Tick>)
    requires Monotone(ticks)
    ensures forall i, j :: 0 <= i < j < |ticks| ==> ticks[i].stamp <= ticks[j].now
  {
    if |ticks| > 1 {
      var init := ticks[..|ticks| - 1];
      assert Monotone(init);
      MonotoneOrdered(init);
      var last := |ticks| - 1;
      forall i, j | 0 <= i < j < |ticks| ensures ticks[i].stamp <= ticks[j].now {
        if j < last {
          assert ticks[i] == init[i] && ticks[j] == init[j];
        } else if i < last - 1 {
          assert ticks[i] == init[i] && ticks[last - 1] == init[last - 1];
        }
      }
    }
  }

  /** The display's last time is at least the stamp of every call that wrote. */
  lemma {:induction false} RunLastDisplay(d: Display, ticks: seq<Tick>)
    requires Monotone(ticks)
    ensures var (d', outs) := Run(d, ticks);
            forall i :: 0 <= i < |ticks| && outs[i] != "" ==> d'.lastDisplay >= ticks[i].stamp
  {
    if |ticks| > 0 {
      var init := ticks[..|ticks| - 1];
      assert Monotone(init);
      RunLastDisplay(d, init);
      MonotoneOrdered(ticks);
      var (d1, outs0) := Run(d, init);
      var (d2, outs) := Run(d, ticks);
      forall i | 0 <= i < |ticks| && outs[i] != "" ensures d2.lastDisplay >= ticks[i].stamp {
        if i < |ticks| - 1 {
          assert outs[i] == outs0[i] && ticks[i] == init[i];
        }
      }
    }
  }

  /**
   Throttling: when the clock never goes back, any two calls that both write
   are separated by more than the interval, measured from the first one's
   completion to the second one's start.
   */
  lemma {:induction false} RunThrottled(d: Display, ticks: seq<Tick>)
    requires Monotone(ticks)
    ensures var outs := Run(d, ticks).1;
            forall i, j :: 0 <= i < j < |ticks| && outs[i] != "" && outs[j] != "" ==>
              ticks[j].now - ticks[i].stamp > d.interval
  {
    if |ticks| > 0 {
      var init := ticks[..|ticks| - 1];
      assert Monotone(init);
      RunThrottled(d, init);
      RunLastDisplay(d, init);
      var (d1, outs0) := Run(d, init);
      var outs := Run(d, ticks).1;
      assert outs == outs0 + [Call(d1, ticks[|ticks| - 1].now, ticks[|ticks| - 1].stamp,
                                   ticks[|ticks| - 1].name, ticks[|ticks| - 1].scanned).1];
      forall i, j | 0 <= i < j < |ticks| && outs[i] != "" && outs[j] != ""
        ensures ticks[j].now - ticks[i].stamp > d.interval
      {
        assert outs[i] == outs0[i] && ticks[i] == init[i];
        if j < |ticks| - 1 {
          assert outs[j] == outs0[j] && ticks[j] == init[j];
        }
      }
    }
  }

  /** A run extended by one call is the run followed by that call. */
  lemma RunSnoc(d: Display, ticks: seq<Tick>, t: Tick)
    ensures var step := Call(Run(d, ticks).0, t.now, t.stamp, t.name, t.scanned);
            Run(d, ticks + [t]) == (step.0, Run(d, ticks).1 + [step.1])
  {
    assert (ticks + [t])[..|ticks|] == ticks;
  }

  /** A call inside the interval leaves the state alone and adds an empty write to the run. */
  lemma RunQuiet(d: Display, ticks: seq<Tick>, t: Tick, d1: Display, outs: seq<string>)
    requires Run(d, ticks) == (d1, outs) && t.now - d1.lastDisplay <= d1.interval
    ensures Run(d, ticks + [t]) == (d1, outs + [""])
  {
    RunSnoc(d, ticks, t);
  }

  /** A call past the interval writes its text and moves the display's last time to its stamp. */
  lemma RunWrites(d: Display, ticks: seq<Tick>, t: Tick, d1: Display, outs: seq<string>)
    requires Run(d, ticks) == (d1, outs) && t.now - d1.lastDisplay > d1.interval
    ensures var r := Run(d, ticks + [t]);
            && r.0.lastDisplay == t.stamp && r.0.interval == d1.interval
            && r.1 == outs + [Repeat(Backspace, d1.lastLen) + ProgressText(t.name, t.scanned)]
  {
    RunSnoc(d, ticks, t);
  }

  /**
   With ticks counted from 0, calls at 0, 1, 2 and 6 write only once, at 6:
   the first write needs the clock to be past the interval, measured from 0.
   */
  lemma TicksFromZero()
    ensures var outs := Run(NewDisplay(5), [Tick(0, 0, "Music", 1), Tick(1, 1, "Music", 2),
                                            Tick(2, 2, "Music", 3), Tick(6, 6, "Music", 4)]).1;
            outs == ["", "", "", ProgressText("Music", 4)]
  {
    var t0, t1, t2, t3 := Tick(0, 0, "Music", 1), Tick(1, 1, "Music", 2), Tick(2, 2, "Music", 3), Tick(6, 6, "Music", 4);
    var d := NewDisplay(5);
    assert Run(d, []) == (d, []);
    RunQuiet(d, [], t0, d, []);
    assert [] + [t0] == [t0] && [] + [""] == [""];
    RunQuiet(d, [t0], t1, d, [""]);
    assert [t0] + [t1] == [t0, t1] && [""] + [""] == ["", ""];
    RunQuiet(d, [t0, t1], t2, d, ["", ""]);
    assert [t0, t1] + [t2] == [t0, t1, t2] && ["", ""] + [""] == ["", "", ""];
    RunWrites(d, [t0, t1, t2], t3, d, ["", "", ""]);
    assert [t0, t1, t2] + [t3] == [t0, t1, t2, t3];
    var text := ProgressText("Music", 4);
    assert Repeat(Backspace, 0) + text == text;
    assert ["", "", ""] + [text] == ["", "", "", text];
  }

  /**
   With a wall clock far past the interval, calls at t, t+1, t+2 and t+6
   write twice: at t, and at t+6 once more than five ticks have passed.
   */
  lemma TicksFromClock(t: int)
    requires t > DefaultInterval
    ensures var outs := Run(NewDisplay(DefaultInterval), [Tick(t, t, "Music", 1), Tick(t + 1, t + 1, "Music", 2),
                                            Tick(t + 2, t + 2, "Music", 3), Tick(t + 6, t + 6, "Music", 4)]).1;
            outs[0] != "" && outs[1] == "" && outs[2] == "" && outs[3] != ""
  {
    var t0, t1, t2, t3 := Tick(t, t, "Music", 1), Tick(t + 1, t + 1, "Music", 2), Tick(t + 2, t + 2, "Music", 3), Tick(t + 6, t + 6, "Music", 4);
    var d := NewDisplay(DefaultInterval);
    assert Run(d, []) == (d, []);
    RunWrites(d, [], t0, d, []);
    assert [] + [t0] == [t0];
    var r1 := Run(d, [t0]);
    assert r1.0.lastDisplay == t && r1.0.interval == DefaultInterval;
    assert r1.1[0] != "";
    assert r1 == (r1.0, r1.1);
    RunQuiet(d, [t0], t1, r1.0, r1.1);
    assert [t0] + [t1] == [t0, t1];
    RunQuiet(d, [t0, t1], t2, r1.0, r1.1 + [""]);
    assert [t0, t1] + [t2] == [t0, t1, t2];
    RunWrites(d, [t0, t1, t2], t3, r1.0, r1.1 + [""] + [""]);
    assert [t0, t1, t2] + [t3] == [t0, t1, t2, t3];
  }
}
