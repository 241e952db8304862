/** ciolib_mouse_thread and add_outevent of conio/mouse.c, updating the mouse state in place. */
module MouseThread {
  import opened MouseEvents

  /** The events that are asked for. */
  function Asked(out: seq<OutEvent>, mask: set<int>): seq<OutEvent> {
    if out == [] then []
    else
      var last := out[|out| - 1];
      Asked(out[..|out| - 1], mask) + if Code(last.kind, last.but) in mask then [last] else []
  }

  lemma AskedOne(out: seq<OutEvent>, e: OutEvent, mask: set<int>)
    ensures Asked(out + [e], mask) == Asked(out, mask) + if Code(e.kind, e.but) in mask then [e] else []
  {
    assert (out + [e])[..|out|] == out;
  }

  /** Nothing is lost when all events are asked for. */
  lemma {:induction false} AllAsked(out: seq<OutEvent>, mask: set<int>)
    requires forall i | 0 <= i < |out| :: Code(out[i].kind, out[i].but) in mask
    ensures Asked(out, mask) == out
  {
    if out != [] {
      AllAsked(out[..|out| - 1], mask);
    }
  }

  /** The button whose timeout comes first, 0 if none waits. */
  predicate Earliest(m: Mouse, but: int)
    requires IsMouse(m)
  {
    if but == 0 then forall k | 0 <= k < 3 :: !Waits(m.buttons[k])
    else
      && 1 <= but <= 3 && Waits(m.buttons[but - 1])
      && forall k | 0 <= k < 3 && Waits(m.buttons[k]) ::
           m.buttons[but - 1].timeout < m.buttons[k].timeout ||
             (m.buttons[but - 1].timeout == m.buttons[k].timeout && but - 1 <= k)
  }

  class Thread {
    var buttons: seq<Button>
    var curx: int
    var cury: int
    const times: Times
    var mouseEvents: set<int>
    var output: seq<OutEvent>
    var timeoutButton: int
    ghost var calls: seq<OutEvent>  // what add_outevent has been called for in this step
    ghost var before: seq<OutEvent>  // the output when the step began

    ghost predicate Valid()
      reads this
    {
      |buttons| == 3 && output == before + Asked(calls, mouseEvents)
    }

    ghost function View(): (m: Mouse)
      reads this
    {
      Mouse(buttons, curx, cury)
    }

    /** init_mouse */
    constructor (times: Times)
      ensures Valid() && View() == Start && output == [] && timeoutButton == 0 && this.times == times
      ensures Earliest(View(), timeoutButton)
    {
      buttons, curx, cury := [AtRest, AtRest, AtRest], 0, 0;
      this.times := times;
      mouseEvents, output, timeoutButton := {}, [], 0;
      calls, before := [], [];
    }

    function ButtonState(): int
      reads this
      requires |buttons| == 3
    {
      Bits([buttons[0].held, buttons[1].held, buttons[2].held])
    }

    function KnownButtons(): int
      reads this
      requires |buttons| == 3
    {
      Bits([buttons[0].known, buttons[1].known, buttons[2].known])
    }

    /** add_outevent */
    method AddOutEvent(kind: Kind, but: int, x: int, y: int)
      requires Valid() && (if kind == Move then but == 0 else 1 <= but <= 3)
      requires kind != Move && kind != DragMove && kind != DragEnd ==>
        x == buttons[but - 1].x && y == buttons[but - 1].y
      modifies this`output, this`calls
      ensures Valid() && calls == old(calls) + [OutOf(View(), kind, but, x, y)]
    {
      hide Asked, Bits, Code;
      AskedOne(calls, OutOf(View(), kind, but, x, y), mouseEvents);
      calls := calls + [OutOf(View(), kind, but, x, y)];
      if Code(kind, but) !in mouseEvents {
        return;
      }
      output := output + [Out(kind, but, ButtonState(), KnownButtons(),
        if but != 0 then buttons[but - 1].x else curx, if but != 0 then buttons[but - 1].y else cury, x, y)];
    }

    /** An event at the place where the button's state began. */
    method AddButtonEvent(kind: Kind, but: int)
      requires Valid() && 1 <= but <= 3 && kind != Move && kind != DragMove && kind != DragEnd
      modifies this`output, this`calls
      ensures Valid() && calls == old(calls) + ButtonOut(View(), kind, but)
    {
      AddOutEvent(kind, but, buttons[but - 1].x, buttons[but - 1].y);
    }

    /** The clicks recognised so far. */
    method AddSettled(but: int)
      requires Valid() && 1 <= but <= 3
      modifies this`output, this`calls
      ensures Valid() && calls == old(calls) + SettledOut(View(), but)
    {
      hide Asked, ButtonOut;
      match buttons[but - 1].st {
        case Clicked => AddButtonEvent(Click, but);
        case DoublePressed => AddButtonEvent(Click, but);
        case DoubleClicked => AddButtonEvent(DblClick, but);
        case TriplePressed => AddButtonEvent(DblClick, but);
        case TripleClicked => AddButtonEvent(TrplClick, but);
        case QuadPressed => AddButtonEvent(TrplClick, but);
        case QuadClicked => AddButtonEvent(QuadClick, but);
        case _ =>
      }
    }

    /** A timeout of the button. */
    method TimedOut(but: int)
      requires Valid() && 1 <= but <= 3
      modifies this`buttons, this`output, this`calls
      ensures Valid()
      ensures var m := old(View()); var b := m.buttons[but - 1]; var r := Change(m, but, OnTimeOut(b), b.x, b.y);
        View() == r.0 && calls == old(calls) + r.1
    {
      hide Asked, OutOf;
      ghost var m, c := View(), calls;
      buttons := buttons[but - 1 := buttons[but - 1].(timeout := 0)];
      var st := buttons[but - 1].st;
      AddSettled(but);
      if IsPressed(st) {
        AddButtonEvent(Press, but);
      }
      TimeOutCalls(m, View(), but);
      buttons := buttons[but - 1 := buttons[but - 1].(st := NoState)];
      assert calls == c + Change(m, but, OnTimeOut(m.buttons[but - 1]), m.buttons[but - 1].x, m.buttons[but - 1].y).1;
    }

    /** The mouse has moved while the button is in its present state. */
    method MoveButton(but: int, x: int, y: int)
      requires Valid() && 1 <= but <= 3
      modifies this`buttons, this`output, this`calls
      ensures Valid()
      ensures var m := old(View()); var r := Change(m, but, OnMove(m.buttons[but - 1]), x, y);
        View() == r.0 && calls == old(calls) + r.1
    {
      hide Asked, OutOf;
      ghost var m, c := View(), calls;
      MoveCalls(m, but, x, y);
      var b := buttons[but - 1];
      if b.st.DragStarted? {
        AddOutEvent(DragMove, but, x, y);
      } else if IsPressed(b.st) || (b.st.NoState? && b.held) {
        AddSettled(but);
        AddButtonEvent(DragStart, but);
        AddOutEvent(DragMove, but, x, y);
        buttons := buttons[but - 1 := b.(st := DragStarted)];
      } else if b.st.Clicked? || b.st.DoubleClicked? || b.st.TripleClicked? {
        AddSettled(but);
        buttons := buttons[but - 1 := b.(st := NoState)];
      }
      assert calls == c + Change(m, but, OnMove(m.buttons[but - 1]), x, y).1;
    }

    method MouseMoved(x: int, y: int)
      requires Valid()
      modifies this`buttons, this`output, this`calls
      ensures Valid()
      ensures var m := old(View()); var r := MoveButtons(m, 1, x, y);
        View() == r.0 && calls == old(calls) + [OutOf(m, Move, 0, x, y)] + r.1
    {
      hide Asked, OutOf, OnMove, Change, OutsOf;
      ghost var m := View();
      AddOutEvent(Move, 0, x, y);
      ghost var c := calls;
      var but := 1;
      while but <= 3
        invariant 1 <= but <= 4 && Valid()
        invariant MoveButtons(m, 1, x, y).0 == MoveButtons(View(), but, x, y).0
        invariant c + MoveButtons(m, 1, x, y).1 == calls + MoveButtons(View(), but, x, y).1
        decreases 4 - but
      {
        ghost var now := View();
        MoveStep(now, but, x, y, calls);
        MoveButton(but, x, y);
        but := but + 1;
      }
      MoveDone(View(), x, y, calls);
    }

    method ButtonPressed(but: int, x: int, y: int, now: int)
      requires Valid() && 1 <= but <= 3
      modifies this`buttons, this`output, this`calls
      ensures Valid()
      ensures var m := old(View());
        var r := Change(m, but, OnPress(m.buttons[but - 1], x, y, now, times, MoreMulties(mouseEvents, but, 0)), x, y);
        View() == r.0 && calls == old(calls) + r.1
    {
      hide Asked, OutOf, MoreMulties;
      ghost var m, c := View(), calls;
      var i := but - 1;
      buttons := buttons[i := buttons[i].(held := true, known := true)];
      var timeout := now + times.click;
      if timeout == 0 { timeout := 1; }
      if times.click == 0 { timeout := 0; }
      match buttons[i].st {
        case NoState =>
          buttons := buttons[i := buttons[i].(st := SinglePressed, x := x, y := y, timeout := timeout)];
          if !MoreMulties(mouseEvents, but, 0) {
            AddButtonEvent(Press, but);
            PressCalls(m, View(), but, x, y, now, times);
            buttons := buttons[i := buttons[i].(st := NoState, timeout := 0)];
          }
        case Clicked =>
          buttons := buttons[i := buttons[i].(st := DoublePressed, timeout := timeout)];
        case DoubleClicked =>
          buttons := buttons[i := buttons[i].(st := TriplePressed, timeout := timeout)];
        case TripleClicked =>
          buttons := buttons[i := buttons[i].(st := QuadPressed, timeout := timeout)];
        case _ =>
      }
    }

    method ButtonReleased(but: int, x: int, y: int, now: int)
      requires Valid() && 1 <= but <= 3
      modifies this`buttons, this`output, this`calls
      ensures Valid()
      ensures var m := old(View()); var b := m.buttons[but - 1];
        var r := Change(m, but, OnRelease(b, x, y, now, times, MoreMulties(mouseEvents, but, Clicks(b.st))), x, y);
        View() == r.0 && calls == old(calls) + r.1
    {
      hide Asked, OutOf, MoreMulties;
      ghost var m := View();
      var i := but - 1;
      buttons := buttons[i := buttons[i].(held := false, known := true)];
      var b := buttons[i];
      match b.st {
        case NoState =>
          buttons := buttons[i := b.(x := x, y := y)];
          AddButtonEvent(Release, but);
          ReleaseCalls(m, View(), Release, but, x, y, now, times, MoreMulties(mouseEvents, but, Clicks(b.st)));
        case SinglePressed =>
          var timeout := if MoreMulties(mouseEvents, but, 1) then now + times.multi else now;
          buttons := buttons[i := b.(st := Clicked, timeout := if timeout == 0 then 1 else timeout)];
        case DoublePressed =>
          var timeout := if MoreMulties(mouseEvents, but, 2) then now + times.multi else now;
          buttons := buttons[i := b.(st := DoubleClicked, timeout := if timeout == 0 then 1 else timeout)];
        case TriplePressed =>
          var timeout := if MoreMulties(mouseEvents, but, 3) then now + times.multi else now;
          buttons := buttons[i := b.(st := TripleClicked, timeout := if timeout == 0 then 1 else timeout)];
        case QuadPressed =>
          buttons := buttons[i := b.(st := NoState)];
          AddButtonEvent(QuadClick, but);
          ReleaseCalls(m, View(), QuadClick, but, x, y, now, times, MoreMulties(mouseEvents, but, Clicks(b.st)));
          buttons := buttons[i := buttons[i].(timeout := 1)];
        case DragStarted =>
          AddOutEvent(DragEnd, but, x, y);
          ReleaseCalls(m, View(), DragEnd, but, x, y, now, times, MoreMulties(mouseEvents, but, Clicks(b.st)));
          buttons := buttons[i := b.(st := NoState)];
        case _ =>
      }
    }

    /** The loop at the end of a round: which button's timeout is waited for. */
    method SelectTimeout()
      requires |buttons| == 3
      modifies this`timeoutButton
      ensures Earliest(View(), timeoutButton)
    {
      timeoutButton := 0;
      var ttime := 0;
      var but := 1;
      while but <= 3
        invariant 1 <= but <= 4 && 0 <= timeoutButton < but
        invariant timeoutButton == 0 ==> forall k | 0 <= k < but - 1 :: !Waits(buttons[k])
        invariant timeoutButton != 0 ==>
          Waits(buttons[timeoutButton - 1]) && ttime == buttons[timeoutButton - 1].timeout
        invariant timeoutButton != 0 ==> forall k | 0 <= k < but - 1 && Waits(buttons[k]) ::
          ttime < buttons[k].timeout || (ttime == buttons[k].timeout && timeoutButton - 1 <= k)
        decreases 4 - but
      {
        var b := buttons[but - 1];
        if b.st != NoState && b.st != DragStarted && b.timeout != 0 && (timeoutButton == 0 || b.timeout < ttime) {
          ttime := b.timeout;
          timeoutButton := but;
        }
        but := but + 1;
      }
    }

    /** One round of ciolib_mouse_thread, under the events asked for at the time. */
    method Round(i: Input, mask: set<int>)
      requires Valid() && IsInput(i) && Earliest(View(), timeoutButton)
      requires i.TimeOut? ==> i.but == timeoutButton
      modifies this
      ensures Valid() && Earliest(View(), timeoutButton) && mouseEvents == mask
      ensures old(Possible(View(), i))
      ensures View() == Step(old(View()), i, mask, times).0
      ensures output == old(output) + Asked(Step(old(View()), i, mask, times).1, mask)
    {
      hide Asked, OutOf, OutsOf, OnTimeOut, OnPress, OnRelease, MoveButtons, MoreMulties;
      before, calls, mouseEvents := output, [], mask;
      NothingAsked(mask);
      ghost var m := View();
      match i {
        case TimeOut(but) =>
          TimedOut(but);
        case Event(kind, but, x, y, now) =>
          match kind {
            case Move =>
              if x != curx || y != cury {
                MouseMoved(x, y);
              }
            case Press =>
              ButtonPressed(but, x, y, now);
            case Release =>
              ButtonReleased(but, x, y, now);
            case _ =>
          }
          curx := x;
          cury := y;
      }
      assert calls == Step(m, i, mask, times).1;
      SelectTimeout();
    }
  }

  lemma NothingAsked(mask: set<int>)
    ensures Asked([], mask) == []
  {
  }

  lemma MoveStep(m: Mouse, but: int, x: int, y: int, c: seq<OutEvent>)
    requires IsMouse(m) && 1 <= but <= 3
    ensures var r := Change(m, but, OnMove(m.buttons[but - 1]), x, y);
      && MoveButtons(m, but, x, y).0 == MoveButtons(r.0, but + 1, x, y).0
      && c + MoveButtons(m, but, x, y).1 == c + r.1 + MoveButtons(r.0, but + 1, x, y).1
  {
    hide OnMove, OutsOf;
  }

  lemma MoveDone(m: Mouse, x: int, y: int, c: seq<OutEvent>)
    requires IsMouse(m)
    ensures MoveButtons(m, 4, x, y) == (m, []) && c + [] == c
  {
  }

  lemma MoveCalls(m: Mouse, but: int, x: int, y: int)
    requires IsMouse(m) && 1 <= but <= 3
    ensures var b := m.buttons[but - 1];
      Change(m, but, OnMove(b), x, y).1 ==
        if b.st.DragStarted? then [OutOf(m, DragMove, but, x, y)]
        else if IsPressed(b.st) || (b.st.NoState? && b.held) then
          SettledOut(m, but) + ButtonOut(m, DragStart, but) + [OutOf(m, DragMove, but, x, y)]
        else if b.st.Clicked? || b.st.DoubleClicked? || b.st.TripleClicked? then SettledOut(m, but)
        else []
  {
    hide SettledOut, OutOf;
    var b := m.buttons[but - 1];
    var ks := OnMove(b).1;
    SameOuts(m, Change(m, but, OnMove(b), x, y).0, ks, but, x, y);
    ShortOuts(m, ks, but, x, y);
    SettledPlace(m, but, x, y);
  }

  /** Only drag moves and drag ends depend on where the mouse is. */
  lemma SettledPlace(m: Mouse, but: int, x: int, y: int)
    requires IsMouse(m) && 1 <= but <= 3
    ensures var ks := Settled(m.buttons[but - 1].st);
      |ks| <= 1 && SettledOut(m, but) == if ks == [] then [] else [OutOf(m, ks[0], but, x, y)]
    ensures ButtonOut(m, DragStart, but) == [OutOf(m, DragStart, but, x, y)]
  {
  }

  lemma PressCalls(m: Mouse, m1: Mouse, but: int, x: int, y: int, now: int, times: Times)
    requires IsMouse(m) && 1 <= but <= 3 && m.buttons[but - 1].st == NoState
    requires IsMouse(m1) &&
      SameButLooks(m1, Change(m, but, OnPress(m.buttons[but - 1], x, y, now, times, false), x, y).0)
    ensures Change(m, but, OnPress(m.buttons[but - 1], x, y, now, times, false), x, y).1 == ButtonOut(m1, Press, but)
  {
    var r := OnPress(m.buttons[but - 1], x, y, now, times, false);
    ShortOuts(Change(m, but, r, x, y).0, r.1, but, x, y);
  }

  lemma ReleaseCalls(m: Mouse, m1: Mouse, k: Kind, but: int, x: int, y: int, now: int, times: Times, multies: bool)
    requires IsMouse(m) && 1 <= but <= 3 && k in {Release, QuadClick, DragEnd}
    requires var r := OnRelease(m.buttons[but - 1], x, y, now, times, multies);
      r.1 == [k] && IsMouse(m1) && SameButLooks(m1, Change(m, but, r, x, y).0)
    ensures var out := Change(m, but, OnRelease(m.buttons[but - 1], x, y, now, times, multies), x, y).1;
      out == [OutOf(m1, k, but, x, y)] && (k != DragEnd ==> out == ButtonOut(m1, k, but))
  {
    var r := OnRelease(m.buttons[but - 1], x, y, now, times, multies);
    ShortOuts(Change(m, but, r, x, y).0, r.1, but, x, y);
  }

  function ButtonOut(m: Mouse, k: Kind, but: int): seq<OutEvent>
    requires IsMouse(m) && 1 <= but <= 3 && k != Move
  {
    [OutOf(m, k, but, m.buttons[but - 1].x, m.buttons[but - 1].y)]
  }

  function SettledOut(m: Mouse, but: int): seq<OutEvent>
    requires IsMouse(m) && 1 <= but <= 3
  {
    var ks := Settled(m.buttons[but - 1].st);
    if ks == [] then [] else ButtonOut(m, ks[0], but)
  }

  /** What TimedOut puts out, told of the state in which its calls are made. */
  lemma TimeOutCalls(m: Mouse, m1: Mouse, but: int)
    requires IsMouse(m) && 1 <= but <= 3 && m1 == m.(buttons := m.buttons[but - 1 := m.buttons[but - 1].(timeout := 0)])
    ensures var b := m.buttons[but - 1];
      Change(m, but, OnTimeOut(b), b.x, b.y).1 ==
        SettledOut(m1, but) + if IsPressed(b.st) then ButtonOut(m1, Press, but) else []
  {
    hide OutOf;
    var b := m.buttons[but - 1];
    var ks := OnTimeOut(b).1;
    SameOuts(m1, Change(m, but, OnTimeOut(b), b.x, b.y).0, ks, but, b.x, b.y);
    ShortOuts(m1, ks, but, b.x, b.y);
  }

  /** Two states that differ in what the buttons are waiting for only. */
  predicate SameButLooks(m: Mouse, m': Mouse)
    requires IsMouse(m) && IsMouse(m')
  {
    m.curx == m'.curx && m.cury == m'.cury && forall k | 0 <= k < 3 :: SameLook(m.buttons[k], m'.buttons[k])
  }

  predicate SameLook(b: Button, b': Button) {
    b.x == b'.x && b.y == b'.y && b.held == b'.held && b.known == b'.known
  }

  lemma {:induction false} SameOuts(m: Mouse, m': Mouse, ks: seq<Kind>, but: int, x: int, y: int)
    requires IsMouse(m) && IsMouse(m') && 1 <= but <= 3 && SameButLooks(m, m')
    ensures OutsOf(m, ks, but, x, y) == OutsOf(m', ks, but, x, y)
    decreases |ks|
  {
    if ks != [] {
      SameOuts(m, m', ks[1..], but, x, y);
    }
  }

  lemma ShortOuts(m: Mouse, ks: seq<Kind>, but: int, x: int, y: int)
    requires IsMouse(m) && 1 <= but <= 3 && |ks| <= 3
    ensures OutsOf(m, ks, but, x, y) ==
      (if |ks| > 0 then [OutOf(m, ks[0], but, x, y)] else []) + (if |ks| > 1 then [OutOf(m, ks[1], but, x, y)] else [])
      + (if |ks| > 2 then [OutOf(m, ks[2], but, x, y)] else [])
  {
    hide OutOf;
    if |ks| > 0 { assert OutsOf(m, ks, but, x, y) == [OutOf(m, ks[0], but, x, y)] + OutsOf(m, ks[1..], but, x, y); }
    if |ks| > 1 { assert OutsOf(m, ks[1..], but, x, y) ==
      [OutOf(m, ks[1], but, x, y)] + OutsOf(m, ks[1..][1..], but, x, y); }
    if |ks| > 2 { assert OutsOf(m, ks[1..][1..], but, x, y) ==
      [OutOf(m, ks[2], but, x, y)] + OutsOf(m, ks[1..][1..][1..], but, x, y); }
  }
}
