/** What the recognition of conio/mouse.c makes of the presses, releases and moves of one button, over whole runs:
    clicks that follow each other become one click of several, and moves with the button down a drag. */
module MouseGestures {
  import opened MouseEvents

  // ---- what is put out for one button

  datatype Sight = Sight(kind: Kind, startx: int, starty: int, endx: int, endy: int)

  function SightsOf(out: seq<OutEvent>, but: int): seq<Sight> {
    if out == [] then []
    else
      var e := out[|out| - 1];
      SightsOf(out[..|out| - 1], but) +
      if e.but == but then [Sight(e.kind, e.startx, e.starty, e.endx, e.endy)] else []
  }

  lemma {:induction false} SightsConcat(a: seq<OutEvent>, b: seq<OutEvent>, but: int)
    ensures SightsOf(a + b, but) == SightsOf(a, but) + SightsOf(b, but)
    decreases |b|
  {
    if b == [] {
      assert a + b == a;
    } else {
      assert (a + b)[..|a + b| - 1] == a + b[..|b| - 1];
      SightsConcat(a, b[..|b| - 1], but);
    }
  }

  /** An event is where the button's state began; a drag also goes on to where the mouse is. */
  function SightOf(b: Button, k: Kind, x: int, y: int): Sight {
    if k == DragMove || k == DragEnd then Sight(k, b.x, b.y, x, y) else Sight(k, b.x, b.y, b.x, b.y)
  }

  function Shown(b: Button, ks: seq<Kind>, x: int, y: int): seq<Sight> {
    if ks == [] then [] else [SightOf(b, ks[0], x, y)] + Shown(b, ks[1..], x, y)
  }

  lemma {:induction false} SightsShown(m: Mouse, ks: seq<Kind>, b: int, x: int, y: int, but: int)
    requires IsMouse(m) && 1 <= b <= 3 && 1 <= but <= 3 && Move !in ks
    ensures SightsOf(OutsOf(m, ks, b, x, y), but) == if b == but then Shown(m.buttons[b - 1], ks, x, y) else []
    decreases |ks|
  {
    hide Bstate, Kbsm;
    if ks != [] {
      var first := OutOf(m, ks[0], b, x, y);
      SightsShown(m, ks[1..], b, x, y, but);
      SightsConcat([first], OutsOf(m, ks[1..], b, x, y), but);
      assert [first][..0] == [];
    }
  }

  lemma ChangeShown(m: Mouse, b: int, r: (Button, seq<Kind>), x: int, y: int, but: int)
    requires IsMouse(m) && 1 <= b <= 3 && 1 <= but <= 3 && Move !in r.1
    ensures var (m', out) := Change(m, b, r, x, y);
      if b == but then m'.buttons[but - 1] == r.0 && SightsOf(out, but) == Shown(r.0, r.1, x, y)
      else m'.buttons[but - 1] == m.buttons[but - 1] && SightsOf(out, but) == []
  {
    SightsShown(Change(m, b, r, x, y).0, r.1, b, x, y, but);
  }

  // ---- single steps

  predicate Own(i: Input, but: int) {
    i.but == but && (i.TimeOut? || i.kind == Press || i.kind == Release)
  }

  predicate Moving(i: Input) {
    i.Event? && i.kind == Move
  }

  lemma NoMoveOut(b: Button, x: int, y: int, now: int, times: Times, multies: bool)
    ensures Move !in OnTimeOut(b).1 && Move !in OnMove(b).1 && Move !in OnPress(b, x, y, now, times, multies).1
    ensures Move !in OnRelease(b, x, y, now, times, multies).1
  {
  }

  /** What a button makes of an input of its own. */
  function Reaction(b: Button, i: Input, mask: set<int>, times: Times): (Button, seq<Kind>) {
    match i
    case TimeOut(_) => OnTimeOut(b)
    case Event(kind, but, x, y, now) =>
      if kind == Press then OnPress(b, x, y, now, times, MoreMulties(mask, but, 0))
      else if kind == Release then OnRelease(b, x, y, now, times, MoreMulties(mask, but, Clicks(b.st)))
      else (b, [])
  }

  /** A button only reacts to its own inputs and to moves. */
  lemma StepShown(m: Mouse, i: Input, mask: set<int>, times: Times, but: int)
    requires IsMouse(m) && IsInput(i) && 1 <= but <= 3 && !Moving(i)
    ensures var (m', out) := Step(m, i, mask, times);
      var b := m.buttons[but - 1];
      if Own(i, but) then
        var r := Reaction(b, i, mask, times);
        m'.buttons[but - 1] == r.0 &&
        SightsOf(out, but) == if i.TimeOut? then Shown(r.0, r.1, b.x, b.y) else Shown(r.0, r.1, i.x, i.y)
      else m'.buttons[but - 1] == b && SightsOf(out, but) == []
  {
    hide OnTimeOut, OnPress, OnRelease, MoreMulties, Change, Shown, SightsOf;
    NothingOut(but);
    if i.TimeOut? {
      var b := m.buttons[i.but - 1];
      NoMoveOut(b, 0, 0, 0, times, false);
      ChangeShown(m, i.but, OnTimeOut(b), b.x, b.y, but);
    } else if i.kind == Press || i.kind == Release {
      var b := m.buttons[i.but - 1];
      var multies := MoreMulties(mask, i.but, if i.kind == Press then 0 else Clicks(b.st));
      NoMoveOut(b, i.x, i.y, i.now, times, multies);
      ChangeShown(m, i.but, Reaction(b, i, mask, times), i.x, i.y, but);
    }
  }

  lemma NothingOut(but: int)
    ensures SightsOf([], but) == []
  {
  }

  /** A move of the mouse concerns every button. */
  lemma MoveShown(m: Mouse, x: int, y: int, now: int, mask: set<int>, times: Times, but: int)
    requires IsMouse(m) && 1 <= but <= 3
    ensures var (m', out) := Step(m, Event(Move, 0, x, y, now), mask, times);
      var b := m.buttons[but - 1];
      if x == m.curx && y == m.cury then m'.buttons[but - 1] == b && SightsOf(out, but) == []
      else m'.buttons[but - 1] == OnMove(b).0 && SightsOf(out, but) == Shown(OnMove(b).0, OnMove(b).1, x, y)
  {
    hide OnMove, MoveButtons, Shown, SightsOf;
    NothingOut(but);
    if x != m.curx || y != m.cury {
      ButtonsShown(m, 1, x, y, but);
      var first := OutOf(m, Move, 0, x, y);
      SightsConcat([first], MoveButtons(m, 1, x, y).1, but);
      OthersOut(first, but);
    }
  }

  lemma OthersOut(e: OutEvent, but: int)
    requires e.but != but
    ensures SightsOf([e], but) == []
  {
    assert [e][..0] == [];
  }

  lemma {:induction false} ButtonsShown(m: Mouse, k: int, x: int, y: int, but: int)
    requires IsMouse(m) && 1 <= k <= 4 && 1 <= but <= 3
    ensures var (m', out) := MoveButtons(m, k, x, y);
      var b := m.buttons[but - 1];
      if but < k then m'.buttons[but - 1] == b && SightsOf(out, but) == []
      else m'.buttons[but - 1] == OnMove(b).0 && SightsOf(out, but) == Shown(OnMove(b).0, OnMove(b).1, x, y)
    decreases 4 - k
  {
    hide OnMove, Change, Shown, SightsOf;
    NothingOut(but);
    if k < 4 {
      var r := OnMove(m.buttons[k - 1]);
      NoMoveOut(m.buttons[k - 1], x, y, 0, Times(0, 0), false);
      ChangeShown(m, k, r, x, y, but);
      ChangeIsMouse(m, k, r, x, y);
      var (m1, out1) := Change(m, k, r, x, y);
      ButtonsShown(m1, k + 1, x, y, but);
      SightsConcat(out1, MoveButtons(m1, k + 1, x, y).1, but);
    }
  }

  lemma RunMore(ts: seq<Tick>, t: Tick, times: Times)
    requires Inputable(ts) && IsInput(t.input)
    ensures Inputable(ts + [t])
    ensures var (m, out) := Run(ts, times); var (m', more) := Step(m, t.input, t.mask, times);
      Run(ts + [t], times) == (m', out + more)
  {
    hide Step;
    assert (ts + [t])[..|ts|] == ts;
  }

  /** The button after a run, and what has been put out for it. */
  ghost function After(ts: seq<Tick>, times: Times, but: int): (Button, seq<Sight>)
    requires Inputable(ts) && 1 <= but <= 3
  {
    var (m, out) := Run(ts, times);
    (m.buttons[but - 1], SightsOf(out, but))
  }

  /** One more input that is no move. */
  lemma AfterMore(ts: seq<Tick>, t: Tick, times: Times, but: int)
    requires Inputable(ts) && IsInput(t.input) && 1 <= but <= 3 && !Moving(t.input)
    ensures Inputable(ts + [t])
    ensures var (b, sights) := After(ts, times, but);
      After(ts + [t], times, but) ==
        if Own(t.input, but) then
          var r := Reaction(b, t.input, t.mask, times);
          (r.0, sights + if t.input.TimeOut? then Shown(r.0, r.1, b.x, b.y)
                         else Shown(r.0, r.1, t.input.x, t.input.y))
        else (b, sights)
  {
    hide Step, Reaction, Run, SightsOf, Shown;
    RunMore(ts, t, times);
    var (m, out) := Run(ts, times);
    StepShown(m, t.input, t.mask, times, but);
    SightsConcat(out, Step(m, t.input, t.mask, times).1, but);
    assert SightsOf(out, but) + [] == SightsOf(out, but);
  }

  /** One more move. */
  lemma AfterMove(ts: seq<Tick>, t: Tick, times: Times, but: int)
    requires Inputable(ts) && IsInput(t.input) && 1 <= but <= 3 && Moving(t.input)
    ensures Inputable(ts + [t])
    ensures var (b, sights) := After(ts, times, but); var m := Run(ts, times).0;
      After(ts + [t], times, but) ==
        if t.input.x == m.curx && t.input.y == m.cury then (b, sights)
        else (OnMove(b).0, sights + Shown(OnMove(b).0, OnMove(b).1, t.input.x, t.input.y))
  {
    hide Step, OnMove, Run, SightsOf, Shown;
    RunMore(ts, t, times);
    var (m, out) := Run(ts, times);
    MoveShown(m, t.input.x, t.input.y, t.input.now, t.mask, times, but);
    SightsConcat(out, Step(m, t.input, t.mask, times).1, but);
    assert SightsOf(out, but) + [] == SightsOf(out, but);
  }

  // ---- clicks of several

  predicate Pushes(i: Input, k: Kind, but: int) {
    i.Event? && i.kind == k && i.but == but
  }

  /** The button is pressed and released in turn, without a timeout of its own and without a move of the mouse; and when
      it is pressed, some click of it is asked for. Other buttons may do anything. */
  ghost predicate Taps(ts: seq<Tick>, but: int) {
    ts == [] ||
    var init, last := ts[..|ts| - 1], ts[|ts| - 1];
    var down := Inputs(init, Press, but) - Inputs(init, Release, but);
    && Taps(init, but) && IsInput(last.input) && !Moving(last.input) && last.input != TimeOut(but)
    && (Pushes(last.input, Press, but) ==> down == 0 && MoreMulties(last.mask, but, 0))
    && (Pushes(last.input, Release, but) ==> down == 1)
  }

  /** Where the button was pressed first, in the last four presses counted from the beginning. */
  function Place(ts: seq<Tick>, but: int): (int, int) {
    if ts == [] then (0, 0)
    else
      var init, i := ts[..|ts| - 1], ts[|ts| - 1].input;
      if Pushes(i, Press, but) && Inputs(init, Press, but) % 4 == 0 then (i.x, i.y) else Place(init, but)
  }

  /** Every fourth release completes a fourfold click. */
  function Fours(ts: seq<Tick>, but: int): seq<Sight> {
    if ts == [] then []
    else
      var init, i := ts[..|ts| - 1], ts[|ts| - 1].input;
      Fours(init, but) + if Pushes(i, Release, but) && Inputs(ts, Release, but) % 4 == 0 then
        [At(QuadClick, Place(init, but))] else []
  }

  function At(k: Kind, place: (int, int)): Sight {
    Sight(k, place.0, place.1, place.0, place.1)
  }

  /** The n-fold click. */
  function ClickOf(n: int): Kind {
    if n == 1 then Click else if n == 2 then DblClick else if n == 3 then TrplClick else QuadClick
  }

  /** n presses have been released, and one more has not if the button is down. */
  predicate Tapped(b: Button, n: int, down: bool, place: (int, int)) {
    && b.held == down
    && b.st == (if n % 4 == 0 then if down then SinglePressed else NoState
                else if n % 4 == 1 then if down then DoublePressed else Clicked
                else if n % 4 == 2 then if down then TriplePressed else DoubleClicked
                else if down then QuadPressed else TripleClicked)
    && (down || n % 4 != 0 ==> (b.x, b.y) == place)
    && (!down && n % 4 != 0 ==> b.timeout != 0)
  }

  lemma TapPressed(b: Button, n: int, place: (int, int), x: int, y: int, now: int, times: Times)
    requires Tapped(b, n, false, place)
    ensures var (b', ks) := OnPress(b, x, y, now, times, true);
      ks == [] && Tapped(b', n, true, if n % 4 == 0 then (x, y) else place)
  {
  }

  lemma TapReleased(b: Button, n: int, place: (int, int), x: int, y: int, now: int, times: Times, multies: bool)
    requires Tapped(b, n, true, place)
    ensures var (b', ks) := OnRelease(b, x, y, now, times, multies);
      && Tapped(b', n + 1, false, place)
      && Shown(b', ks, x, y) == if (n + 1) % 4 == 0 then [At(QuadClick, place)] else []
  {
    var ks := OnRelease(b, x, y, now, times, multies).1;
    assert |ks| <= 1;
    assert ks != [] ==> ks[1..] == [];
  }

  lemma {:induction false} InTurn(ts: seq<Tick>, but: int)
    requires Taps(ts, but)
    ensures 0 <= Inputs(ts, Press, but) - Inputs(ts, Release, but) <= 1 && Inputs(ts, Release, but) >= 0
    decreases |ts|
  {
    hide MoreMulties;
    if ts != [] { InTurn(ts[..|ts| - 1], but); }
  }

  /** From rest, n presses and releases put out a fourfold click for every four, and nothing else; the rest is pending
      as one click. */
  lemma {:induction false} TapsRecognised(ts0: seq<Tick>, ts: seq<Tick>, times: Times, but: int)
    requires Inputable(ts0) && 1 <= but <= 3 && Taps(ts, but)
    requires After(ts0, times, but).0.st == NoState && !After(ts0, times, but).0.held
    ensures Inputable(ts0 + ts)
    ensures var (b, sights) := After(ts0 + ts, times, but); var n := Inputs(ts, Release, but);
      && Tapped(b, n, Inputs(ts, Press, but) > n, Place(ts, but))
      && sights == After(ts0, times, but).1 + Fours(ts, but)
    decreases |ts|
  {
    hide After, Tapped, Taps, Reaction, Shown, Inputs, Place, Fours, FourAt;
    NoTaps(but);
    if ts == [] {
      assert ts0 + ts == ts0;
      RestTapped(After(ts0, times, but).0);
    } else {
      var init, t := ts[..|ts| - 1], ts[|ts| - 1];
      assert ts == init + [t];
      TapsBefore(init, t, but);
      TapsRecognised(ts0, init, times, but);
      assert ts0 + ts == ts0 + init + [t];
      AfterMore(ts0 + init, t, times, but);
      TapStep(After(ts0 + init, times, but).0, init, t, times, but);
      Regrouped(After(ts0, times, but).1, Fours(init, but), FourAt(init, t, but));
    }
  }

  lemma Regrouped(a: seq<Sight>, b: seq<Sight>, c: seq<Sight>)
    ensures a + b + c == a + (b + c) && a + b + [] == a + b
  {
  }

  /** What a further input adds to the fourfold clicks. */
  function FourAt(init: seq<Tick>, t: Tick, but: int): seq<Sight> {
    if Pushes(t.input, Release, but) && Inputs(init + [t], Release, but) % 4 == 0 then [At(QuadClick, Place(init, but))]
    else []
  }

  lemma TapStep(b: Button, init: seq<Tick>, t: Tick, times: Times, but: int)
    requires Taps(init + [t], but) && 1 <= but <= 3
    requires Tapped(b, Inputs(init, Release, but), Inputs(init, Press, but) > Inputs(init, Release, but),
      Place(init, but))
    ensures Taps(init, but) && IsInput(t.input) && !Moving(t.input)
    ensures var ts, r := init + [t], if Own(t.input, but) then Reaction(b, t.input, t.mask, times) else (b, []);
      && Tapped(r.0, Inputs(ts, Release, but), Inputs(ts, Press, but) > Inputs(ts, Release, but), Place(ts, but))
      && Fours(ts, but) == Fours(init, but) + FourAt(init, t, but)
      && (Own(t.input, but) ==> t.input.Event? && Shown(r.0, r.1, t.input.x, t.input.y) == FourAt(init, t, but))
      && (!Own(t.input, but) ==> FourAt(init, t, but) == [])
  {
    hide Tapped, MoreMulties, OnPress, OnRelease, Shown, At;
    assert (init + [t])[..|init|] == init;
    InTurn(init, but);
    var n, place := Inputs(init, Release, but), Place(init, but);
    if Pushes(t.input, Press, but) {
      TapPressed(b, n, place, t.input.x, t.input.y, t.input.now, times);
      NothingShown(OnPress(b, t.input.x, t.input.y, t.input.now, times, true).0, t.input.x, t.input.y);
    } else if Pushes(t.input, Release, but) {
      TapReleased(b, n, place, t.input.x, t.input.y, t.input.now, times, MoreMulties(t.mask, but, Clicks(b.st)));
    }
  }

  lemma NoTaps(but: int)
    ensures Inputs([], Press, but) == Inputs([], Release, but) == 0 && Place([], but) == (0, 0) && Fours([], but) == []
  {
  }

  lemma TapsBefore(init: seq<Tick>, t: Tick, but: int)
    requires Taps(init + [t], but)
    ensures Taps(init, but) && IsInput(t.input) && !Moving(t.input)
  {
    assert (init + [t])[..|init|] == init;
  }

  lemma RestTapped(b: Button)
    requires b.st == NoState && !b.held
    ensures Tapped(b, 0, false, (0, 0))
  {
  }

  lemma NothingShown(b: Button, x: int, y: int)
    ensures Shown(b, [], x, y) == []
  {
  }

  /** And when its time is over, the pending click comes out, at the place of its first press. */
  lemma ClicksJoined(ts0: seq<Tick>, ts: seq<Tick>, mask: set<int>, times: Times, but: int)
    requires Inputable(ts0) && 1 <= but <= 3 && Taps(ts, but)
    requires After(ts0, times, but).0.st == NoState && !After(ts0, times, but).0.held
    requires var n := Inputs(ts, Release, but); Inputs(ts, Press, but) == n && n % 4 != 0
    ensures var n := Inputs(ts, Release, but); var ts' := ts0 + ts + [Tick(TimeOut(but), mask)];
      && Inputable(ts0 + ts) && Inputable(ts') && Waits(After(ts0 + ts, times, but).0)
      && After(ts', times, but).0.st == NoState
      && After(ts', times, but).1 ==
           After(ts0, times, but).1 + Fours(ts, but) + [At(ClickOf(n % 4), Place(ts, but))]
  {
    hide After, Taps, Place, Fours, Inputs, Inputable;
    TapsRecognised(ts0, ts, times, but);
    AfterMore(ts0 + ts, Tick(TimeOut(but), mask), times, but);
    var b, n := After(ts0 + ts, times, but).0, Inputs(ts, Release, but);
    TimeOutShown(b, n, Place(ts, but));
  }

  lemma TimeOutShown(b: Button, n: int, place: (int, int))
    requires Tapped(b, n, false, place) && n % 4 != 0
    ensures Waits(b) && OnTimeOut(b).0.st == NoState
    ensures Shown(OnTimeOut(b).0, OnTimeOut(b).1, b.x, b.y) == [At(ClickOf(n % 4), place)]
  {
    assert OnTimeOut(b).1 == [ClickOf(n % 4)] && [ClickOf(n % 4)][1..] == [];
  }

  // ---- what else may follow

  /** What n released presses come to when something else follows. */
  function Pending(n: int, place: (int, int)): seq<Sight> {
    if n % 4 == 0 then [] else [At(ClickOf(n % 4), place)]
  }

  /** A button that stays down is taken for pressed, once its time is over, and the clicks before come out first. */
  lemma PressHeld(b: Button, n: int, place: (int, int))
    requires Tapped(b, n, true, place)
    ensures var (b', ks) := OnTimeOut(b);
      && b'.st == NoState && b'.held
      && Shown(b', ks, b.x, b.y) == Pending(n, place) + [At(Press, place)]
  {
    var b', ks := OnTimeOut(b).0, OnTimeOut(b).1;
    ShownShort(b', ks, b.x, b.y);
  }

  /** A pressed button only has a time if there is one for presses. */
  lemma PressWaits(b: Button, n: int, place: (int, int), x: int, y: int, now: int, times: Times)
    requires Tapped(b, n, false, place)
    ensures var b' := OnPress(b, x, y, now, times, true).0;
      (Waits(b') <==> times.click != 0) && (Waits(b') ==> b'.timeout == Armed(now + times.click))
  {
  }

  lemma ShownShort(b: Button, ks: seq<Kind>, x: int, y: int)
    requires |ks| <= 3
    ensures Shown(b, ks, x, y) ==
      (if |ks| > 0 then [SightOf(b, ks[0], x, y)] else []) + (if |ks| > 1 then [SightOf(b, ks[1], x, y)] else [])
      + (if |ks| > 2 then [SightOf(b, ks[2], x, y)] else [])
  {
    hide SightOf;
    if |ks| > 0 { assert Shown(b, ks, x, y) == [SightOf(b, ks[0], x, y)] + Shown(b, ks[1..], x, y); }
    if |ks| > 1 {
      assert Shown(b, ks[1..], x, y) == [SightOf(b, ks[1], x, y)] + Shown(b, ks[1..][1..], x, y);
    }
    if |ks| > 2 {
      assert Shown(b, ks[1..][1..], x, y) == [SightOf(b, ks[2], x, y)] + Shown(b, ks[1..][1..][1..], x, y);
    }
  }

  /** Where no click is asked for, presses and releases come out at once. */
  lemma PressUnasked(b: Button, x: int, y: int, now: int, times: Times, multies: bool)
    requires b.st == NoState
    ensures var (b', ks) := OnPress(b, x, y, now, times, false);
      b'.st == NoState && b'.held && Shown(b', ks, x, y) == [At(Press, (x, y))]
    ensures var (b', ks) := OnRelease(b, x, y, now, times, multies);
      b'.st == NoState && !b'.held && Shown(b', ks, x, y) == [At(Release, (x, y))]
  {
    assert [Press][1..] == [] && [Release][1..] == [];
  }

  /** The button is left alone. */
  ghost predicate Alone(ts: seq<Tick>, but: int) {
    forall i | 0 <= i < |ts| :: IsInput(ts[i].input) && !Own(ts[i].input, but)
  }

  /** The mouse is moved to another place. */
  ghost predicate Moves(ts: seq<Tick>, i: Input, times: Times)
    requires Inputable(ts)
  {
    var m := Run(ts, times).0;
    Moving(i) && !(i.x == m.curx && i.y == m.cury)
  }

  /** A drag move to every place that the mouse goes to after ts0. */
  ghost function DragMoves(ts0: seq<Tick>, ts: seq<Tick>, times: Times, place: (int, int)): seq<Sight>
    requires Inputable(ts0) && Inputable(ts)
  {
    if ts == [] then []
    else
      var init, i := ts[..|ts| - 1], ts[|ts| - 1].input;
      DragMoves(ts0, init, times, place) +
      if Moves(ts0 + init, i, times) then [Sight(DragMove, place.0, place.1, i.x, i.y)] else []
  }

  /** While the button is down or was just clicked, the first move settles the clicks; with the button down it starts a
      drag, which every further move goes on with. */
  predicate MovedOn(b0: Button, s0: seq<Sight>, b: Button, s: seq<Sight>, n: int, place: (int, int),
                    moves: seq<Sight>) {
    if moves == [] then b == b0 && s == s0
    else if b0.held then
      b == b0.(st := DragStarted) && s == s0 + Pending(n, place) + [At(DragStart, place)] + moves
    else b == b0.(st := NoState) && s == s0 + Pending(n, place)
  }

  lemma MoveSettles(b: Button, n: int, place: (int, int), x: int, y: int)
    requires Tapped(b, n, b.held, place)
    ensures var (b', ks) := OnMove(b);
      && b' == b.(st := if b.held then DragStarted else NoState)
      && Shown(b', ks, x, y) == Pending(n, place) +
           if b.held then [At(DragStart, place), Sight(DragMove, place.0, place.1, x, y)] else []
  {
    var b', ks := OnMove(b).0, OnMove(b).1;
    ShownShort(b', ks, x, y);
  }

  /** A press that has been put out already is dragged without a click. */
  lemma HeldDragged(b: Button, x: int, y: int)
    requires b.st == NoState && b.held
    ensures OnMove(b).0.st == DragStarted
    ensures Shown(OnMove(b).0, OnMove(b).1, x, y) == [At(DragStart, (b.x, b.y)), Sight(DragMove, b.x, b.y, x, y)]
  {
    ShownShort(OnMove(b).0, OnMove(b).1, x, y);
  }

  lemma MoveGoesOn(b: Button, x: int, y: int)
    requires b.st == DragStarted || (b.st == NoState && !b.held)
    ensures OnMove(b).0 == b
    ensures Shown(OnMove(b).0, OnMove(b).1, x, y) ==
      if b.st == DragStarted then [Sight(DragMove, b.x, b.y, x, y)] else []
  {
    assert [DragMove][1..] == [];
  }

  lemma MovedMore(b0: Button, s0: seq<Sight>, b: Button, s: seq<Sight>, n: int, place: (int, int), moves: seq<Sight>,
                  x: int, y: int)
    requires Tapped(b0, n, b0.held, place) && MovedOn(b0, s0, b, s, n, place, moves)
    ensures var moves' := moves + [Sight(DragMove, place.0, place.1, x, y)];
      MovedOn(b0, s0, OnMove(b).0, s + Shown(OnMove(b).0, OnMove(b).1, x, y), n, place, moves')
  {
    hide OnMove, Shown, Pending, At;
    if moves == [] {
      MoveSettles(b, n, place, x, y);
    } else {
      DraggedFrom(b0, n, place);
      MoveGoesOn(b, x, y);
    }
  }

  lemma DraggedFrom(b: Button, n: int, place: (int, int))
    requires Tapped(b, n, b.held, place)
    ensures b.held ==> (b.x, b.y) == place
  {
  }

  /** After some presses and releases, moves settle the clicks that are pending and, with the button down, are a drag
      from where that was pressed. */
  lemma {:induction false} MovesRecognised(ts0: seq<Tick>, ts: seq<Tick>, times: Times, but: int, n: int,
                                           place: (int, int))
    requires Inputable(ts0) && 1 <= but <= 3 && Alone(ts, but)
    requires var b := After(ts0, times, but).0; Tapped(b, n, b.held, place)
    ensures Inputable(ts) && Inputable(ts0 + ts)
    ensures var (b0, s0) := After(ts0, times, but); var (b, s) := After(ts0 + ts, times, but);
      MovedOn(b0, s0, b, s, n, place, DragMoves(ts0, ts, times, place))
    decreases |ts|
  {
    hide After, Tapped, MovedOn, OnMove, Shown, Reaction;
    var b0, s0 := After(ts0, times, but).0, After(ts0, times, but).1;
    if ts == [] {
      assert ts0 + ts == ts0;
      NotMoved(b0, s0, n, place);
    } else {
      var init, t := ts[..|ts| - 1], ts[|ts| - 1];
      MovesRecognised(ts0, init, times, but, n, place);
      assert ts0 + ts == ts0 + init + [t];
      var b, s := After(ts0 + init, times, but).0, After(ts0 + init, times, but).1;
      var moves := DragMoves(ts0, init, times, place);
      assert moves + [] == moves;
      if Moving(t.input) {
        AfterMove(ts0 + init, t, times, but);
        MovedMore(b0, s0, b, s, n, place, moves, t.input.x, t.input.y);
      } else {
        AfterMore(ts0 + init, t, times, but);
      }
    }
  }

  lemma NotMoved(b: Button, s: seq<Sight>, n: int, place: (int, int))
    ensures MovedOn(b, s, b, s, n, place, [])
  {
  }

  /** Presses and releases, the button down at last, then at least one move, then the release. */
  lemma Dragged(ts0: seq<Tick>, taps: seq<Tick>, ts: seq<Tick>, t: Tick, times: Times, but: int)
    requires Inputable(ts0) && 1 <= but <= 3 && Taps(taps, but) && Inputable(ts0 + taps) && Alone(ts, but)
    requires After(ts0, times, but).0.st == NoState && !After(ts0, times, but).0.held
    requires Inputs(taps, Press, but) > Inputs(taps, Release, but)
    requires Inputable(ts) && DragMoves(ts0 + taps, ts, times, Place(taps, but)) != []
    requires IsInput(t.input) && Pushes(t.input, Release, but)
    ensures var ts' := ts0 + taps + ts + [t]; var n, place := Inputs(taps, Release, but), Place(taps, but);
      && Inputable(ts')
      && After(ts', times, but).0.st == NoState && !After(ts', times, but).0.held
      && After(ts', times, but).1 ==
           After(ts0, times, but).1 + Fours(taps, but) + Pending(n, place) + [At(DragStart, place)]
           + DragMoves(ts0 + taps, ts, times, place) + [Sight(DragEnd, place.0, place.1, t.input.x, t.input.y)]
  {
    hide After, Taps, Inputs, Place, Fours, Pending, DragMoves, MoreMulties, Inputable, Alone;
    var n, place := Inputs(taps, Release, but), Place(taps, but);
    TapsRecognised(ts0, taps, times, but);
    MovesRecognised(ts0 + taps, ts, times, but, n, place);
    AfterMore(ts0 + taps + ts, t, times, but);
    var b := After(ts0 + taps + ts, times, but).0;
    DragReleased(b, t.input.x, t.input.y, t.input.now, times, MoreMulties(t.mask, but, Clicks(b.st)));
  }

  lemma DragReleased(b: Button, x: int, y: int, now: int, times: Times, multies: bool)
    requires b.st == DragStarted
    ensures var (b', ks) := OnRelease(b, x, y, now, times, multies);
      b'.st == NoState && !b'.held && Shown(b', ks, x, y) == [Sight(DragEnd, b.x, b.y, x, y)]
  {
    assert [DragEnd][1..] == [];
  }

  /** After a release the thread only waits for another press while a click of more than n is asked for. */
  lemma WaitsForMore(b: Button, x: int, y: int, now: int, mask: set<int>, times: Times, but: int, n: int,
                     place: (int, int))
    requires Tapped(b, n - 1, true, place) && 1 <= n <= 3
    ensures var b' := OnRelease(b, x, y, now, times, MoreMulties(mask, but, Clicks(b.st))).0;
      b'.timeout == Armed(if exists j :: n < j <= 4 && Code(ClickOf(j), but) in mask then now + times.multi else now)
  {
    hide Code;
    assert Clicks(b.st) == n;
    if MoreMulties(mask, but, n) {
      var j := if n < 2 && Code(DblClick, but) in mask then 2 else if n < 3 && Code(TrplClick, but) in mask then 3
               else 4;
      assert n < j <= 4 && Code(ClickOf(j), but) in mask;
    }
  }
}
