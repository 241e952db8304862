/** The click, multi-click and drag recognition of conio/mouse.c as a state machine over events and timeouts. */
module MouseEvents {

  datatype State = NoState | SinglePressed | Clicked | DoublePressed | DoubleClicked
                 | TriplePressed | TripleClicked | QuadPressed | QuadClicked | DragStarted

  /** Where the button stands: its state, the place where that began, when it expires (0 for never), whether the
      button is down, and whether anything is known of it. */
  datatype Button = Button(st: State, x: int, y: int, timeout: int, held: bool, known: bool)

  datatype Kind = Move | Press | Release | Click | DblClick | TrplClick | QuadClick | DragStart | DragMove | DragEnd

  /** The number of an event of button 1, 2 or 3. */
  function Code(k: Kind, but: int): int {
    var base := match k
      case Move => 0 case Press => 1 case Release => 2 case Click => 3 case DblClick => 4
      case TrplClick => 5 case QuadClick => 6 case DragStart => 7 case DragMove => 8 case DragEnd => 9;
    if k == Move then 0 else (but - 1) * 9 + base
  }

  /** The numbers of the events: nine for each button, in the order of Kind, and 0 for moves. */
  lemma CodesInOrder(but: int)
    requires 1 <= but <= 3
    ensures Code(Move, but) == 0 && Code(Press, but) == 9 * but - 8 && Code(Release, but) == Code(Press, but) + 1
    ensures Code(Click, but) == Code(Release, but) + 1 && Code(DblClick, but) == Code(Click, but) + 1
    ensures Code(TrplClick, but) == Code(DblClick, but) + 1 && Code(QuadClick, but) == Code(TrplClick, but) + 1
    ensures Code(DragStart, but) == Code(QuadClick, but) + 1 && Code(DragMove, but) == Code(DragStart, but) + 1
    ensures Code(DragEnd, but) == Code(DragMove, but) + 1 == 9 * but
    ensures forall k | k != Move :: (Code(k, but) + 8) / 9 == but
  {
  }

  datatype OutEvent = Out(kind: Kind, but: int, bstate: int, kbsm: int, startx: int, starty: int, endx: int, endy: int)

  datatype Mouse = Mouse(buttons: seq<Button>, curx: int, cury: int)

  predicate IsMouse(m: Mouse) {
    |m.buttons| == 3
  }

  /** What the thread waits for; now is the clock, and the events asked for may change at any time. */
  datatype Input =
    | TimeOut(but: int)
    | Event(kind: Kind, but: int, x: int, y: int, now: int)

  predicate IsInput(i: Input) {
    (i.TimeOut? || i.kind != Move ==> 1 <= i.but <= 3) && (i.Event? && i.kind == Move ==> i.but == 0)
  }

  /** Times are those of the program: how long a press and how long a click is waited for. */
  datatype Times = Times(click: int, multi: int)

  function Armed(t: int): int {
    if t == 0 then 1 else t
  }

  /** more_multies */
  predicate MoreMulties(mask: set<int>, but: int, clicks: int) {
    || (clicks <= 0 && Code(Click, but) in mask)
    || (clicks <= 1 && Code(DblClick, but) in mask)
    || (clicks <= 2 && Code(TrplClick, but) in mask)
    || (clicks <= 3 && Code(QuadClick, but) in mask)
  }

  // ---- one button

  /** The events for what has been recognised so far. */
  function Settled(st: State): seq<Kind> {
    match st
    case Clicked => [Click]
    case DoublePressed => [Click]
    case DoubleClicked => [DblClick]
    case TriplePressed => [DblClick]
    case TripleClicked => [TrplClick]
    case QuadPressed => [TrplClick]
    case QuadClicked => [QuadClick]
    case _ => []
  }

  predicate IsPressed(st: State) {
    st.SinglePressed? || st.DoublePressed? || st.TriplePressed? || st.QuadPressed?
  }

  predicate IsClicked(st: State) {
    st.Clicked? || st.DoubleClicked? || st.TripleClicked? || st.QuadClicked?
  }

  function OnTimeOut(b: Button): (Button, seq<Kind>) {
    (b.(st := NoState, timeout := 0), Settled(b.st) + if IsPressed(b.st) then [Press] else [])
  }

  function OnMove(b: Button): (Button, seq<Kind>) {
    if b.st.DragStarted? then (b, [DragMove])
    else if IsPressed(b.st) ||
      (b.st.NoState? && b.held) then (b.(st := DragStarted), Settled(b.st) + [DragStart, DragMove])
    else if b.st.Clicked? || b.st.DoubleClicked? || b.st.TripleClicked? then (b.(st := NoState), Settled(b.st))
    else (b, [])
  }

  function PressTimeout(times: Times, now: int): int {
    if times.click == 0 then 0 else Armed(now + times.click)
  }

  function OnPress(b: Button, x: int, y: int, now: int, times: Times, multies: bool): (Button, seq<Kind>) {
    var b := b.(held := true, known := true);
    match b.st
    case NoState =>
      if multies then (b.(st := SinglePressed, x := x, y := y, timeout := PressTimeout(times, now)), [])
      else (b.(x := x, y := y, timeout := 0), [Press])
    case Clicked => (b.(st := DoublePressed, timeout := PressTimeout(times, now)), [])
    case DoubleClicked => (b.(st := TriplePressed, timeout := PressTimeout(times, now)), [])
    case TripleClicked => (b.(st := QuadPressed, timeout := PressTimeout(times, now)), [])
    case _ => (b, [])
  }

  function Clicks(st: State): int {
    match st
    case SinglePressed => 1
    case DoublePressed => 2
    case TriplePressed => 3
    case _ => 4
  }

  function OnRelease(b: Button, x: int, y: int, now: int, times: Times, multies: bool): (Button, seq<Kind>) {
    var b := b.(held := false, known := true);
    var expiry := Armed(if multies then now + times.multi else now);
    match b.st
    case NoState => (b.(x := x, y := y), [Release])
    case SinglePressed => (b.(st := Clicked, timeout := expiry), [])
    case DoublePressed => (b.(st := DoubleClicked, timeout := expiry), [])
    case TriplePressed => (b.(st := TripleClicked, timeout := expiry), [])
    case QuadPressed => (b.(st := NoState, timeout := 1), [QuadClick])
    case DragStarted => (b.(st := NoState), [DragEnd])
    case _ => (b, [])
  }

  // ---- the step

  function Bits(bs: seq<bool>): int
    requires |bs| == 3
  {
    (if bs[0] then 1 else 0) + (if bs[1] then 2 else 0) + (if bs[2] then 4 else 0)
  }

  /** Bit but - 1 of a button mask belongs to button but. */
  lemma BitsAre(bs: seq<bool>)
    requires |bs| == 3
    ensures 0 <= Bits(bs) < 8
    ensures (Bits(bs) % 2 == 1 <==> bs[0]) && (Bits(bs) / 2 % 2 == 1 <==> bs[1]) && (Bits(bs) / 4 % 2 == 1 <==> bs[2])
  {
  }

  function Bstate(m: Mouse): int
    requires IsMouse(m)
  {
    Bits([m.buttons[0].held, m.buttons[1].held, m.buttons[2].held])
  }

  function Kbsm(m: Mouse): int
    requires IsMouse(m)
  {
    Bits([m.buttons[0].known, m.buttons[1].known, m.buttons[2].known])
  }

  /** The record that add_outevent makes; drag moves and drag ends are at the place given. */
  function OutOf(m: Mouse, k: Kind, but: int, x: int, y: int): OutEvent
    requires IsMouse(m) && (k == Move || 1 <= but <= 3)
  {
    if k == Move then Out(k, 0, Bstate(m), Kbsm(m), m.curx, m.cury, x, y)
    else
      var b := m.buttons[but - 1];
      if k == DragMove || k == DragEnd then Out(k, but, Bstate(m), Kbsm(m), b.x, b.y, x, y)
      else Out(k, but, Bstate(m), Kbsm(m), b.x, b.y, b.x, b.y)
  }

  function OutsOf(m: Mouse, ks: seq<Kind>, but: int, x: int, y: int): seq<OutEvent>
    requires IsMouse(m) && 1 <= but <= 3
  {
    if ks == [] then [] else [OutOf(m, ks[0], but, x, y)] + OutsOf(m, ks[1..], but, x, y)
  }

  /** A button changes, and its events go out. */
  function Change(m: Mouse, but: int, r: (Button, seq<Kind>), x: int, y: int): (Mouse, seq<OutEvent>)
    requires IsMouse(m) && 1 <= but <= 3
  {
    var m' := m.(buttons := m.buttons[but - 1 := r.0]);
    (m', OutsOf(m', r.1, but, x, y))
  }

  function MoveButtons(m: Mouse, but: int, x: int, y: int): (r: (Mouse, seq<OutEvent>))
    requires IsMouse(m) && 1 <= but <= 4
    ensures IsMouse(r.0)
    decreases 4 - but
  {
    if but == 4 then (m, [])
    else
      var (m1, out1) := Change(m, but, OnMove(m.buttons[but - 1]), x, y);
      var (m2, out2) := MoveButtons(m1, but + 1, x, y);
      (m2, out1 + out2)
  }

  function Step(m: Mouse, i: Input, mask: set<int>, times: Times): (r: (Mouse, seq<OutEvent>))
    requires IsMouse(m) && IsInput(i)
    ensures IsMouse(r.0)
  {
    match i
    case TimeOut(but) =>
      var b := m.buttons[but - 1];
      Change(m, but, OnTimeOut(b), b.x, b.y)
    case Event(kind, but, x, y, now) =>
      var (m', out) :=
        match kind
        case Move =>
          if x == m.curx && y == m.cury then (m, [])
          else
            var (m1, out1) := MoveButtons(m, 1, x, y);
            (m1, [OutOf(m, Move, 0, x, y)] + out1)
        case Press =>
          Change(m, but, OnPress(m.buttons[but - 1], x, y, now, times, MoreMulties(mask, but, 0)), x, y)
        case Release =>
          var b := m.buttons[but - 1];
          Change(m, but, OnRelease(b, x, y, now, times, MoreMulties(mask, but, Clicks(b.st))), x, y)
        case _ => (m, []);
      (m'.(curx := x, cury := y), out)
  }

  // ---- runs

  /** A timeout can only come from a button that waits: it is neither at rest nor dragged, and its time is set. */
  predicate Waits(b: Button) {
    !b.st.NoState? && !b.st.DragStarted? && b.timeout != 0
  }

  /** Something that the thread can be given, with the events that are asked for at that time. */
  datatype Tick = Tick(input: Input, mask: set<int>)

  const AtRest := Button(NoState, 0, 0, 0, false, false)
  const Start := Mouse([AtRest, AtRest, AtRest], 0, 0)

  predicate Possible(m: Mouse, i: Input)
    requires IsMouse(m)
  {
    IsInput(i) && (i.TimeOut? ==> Waits(m.buttons[i.but - 1]))
  }

  /** Presses and releases of a button alternate, the first release of a button of unknown state excepted. */
  predicate Alternates(m: Mouse, i: Input)
    requires IsMouse(m) && IsInput(i)
  {
    i.Event? ==>
      && (i.kind == Press ==> !m.buttons[i.but - 1].held)
      && (i.kind == Release ==> m.buttons[i.but - 1].held || !m.buttons[i.but - 1].known)
  }

  ghost predicate Inputable(ts: seq<Tick>) {
    forall i | 0 <= i < |ts| :: IsInput(ts[i].input)
  }

  /** The state after some inputs, and everything that was to be put out on the way. */
  ghost function Run(ts: seq<Tick>, times: Times): (r: (Mouse, seq<OutEvent>))
    requires Inputable(ts)
    ensures IsMouse(r.0)
  {
    if ts == [] then (Start, [])
    else
      var (m, out) := Run(ts[..|ts| - 1], times);
      var last := ts[|ts| - 1];
      var (m', more) := Step(m, last.input, last.mask, times);
      (m', out + more)
  }

  ghost predicate Feasible(ts: seq<Tick>, times: Times, alternating: bool)
    requires Inputable(ts)
  {
    ts == [] ||
    (var m, i := Run(ts[..|ts| - 1], times).0, ts[|ts| - 1].input;
     Feasible(ts[..|ts| - 1], times, alternating) && Possible(m, i) && (alternating ==> Alternates(m, i)))
  }

  // ---- counting what has been put out for a button

  datatype Drag = NotDragging | Started | Moved

  /** Presses and releases accounted for, whether a press has been put out that nothing has ended yet, and where a
      drag stands; inOrder says that so far drags have been a start, one or more moves and an end, and nothing else. */
  datatype Tally = Tally(presses: int, releases: int, open: bool, drag: Drag, inOrder: bool)

  function Weight(k: Kind): int {
    match k
    case Click => 1
    case DblClick => 2
    case TrplClick => 3
    case QuadClick => 4
    case _ => 0
  }

  function Count(t: Tally, k: Kind): Tally {
    match k
    case Move => t
    case Press => t.(presses := t.presses + 1, open := true, inOrder := t.inOrder && t.drag == NotDragging)
    case Release => t.(releases := t.releases + 1, open := false, inOrder := t.inOrder && t.drag == NotDragging)
    case DragStart =>
      t.(presses := t.presses + if t.open then 0 else 1, drag := Started, inOrder := t.inOrder && t.drag == NotDragging)
    case DragMove => t.(drag := Moved, inOrder := t.inOrder && t.drag != NotDragging)
    case DragEnd =>
      t.(releases := t.releases + 1, open := false, drag := NotDragging, inOrder := t.inOrder && t.drag == Moved)
    case _ =>
      t.(presses := t.presses + Weight(k), releases := t.releases + Weight(k), inOrder := t.inOrder &&
        t.drag == NotDragging)
  }

  function Counted(out: seq<OutEvent>, but: int): Tally {
    if out == [] then Tally(0, 0, false, NotDragging, true)
    else
      var last := out[|out| - 1];
      var t := Counted(out[..|out| - 1], but);
      if last.but == but then Count(t, last.kind) else t
  }

  /** The presses or releases of a button among the inputs. */
  function Inputs(ts: seq<Tick>, k: Kind, but: int): int {
    if ts == [] then 0
    else
      var i := ts[|ts| - 1].input;
      Inputs(ts[..|ts| - 1], k, but) + if i.Event? && i.kind == k && i.but == but then 1 else 0
  }

  /** Presses that have not been accounted for by any event yet. */
  function PendingPresses(st: State): int {
    match st
    case NoState => 0
    case SinglePressed => 1
    case Clicked => 1
    case DoublePressed => 2
    case DoubleClicked => 2
    case TriplePressed => 3
    case TripleClicked => 3
    case QuadPressed => 4
    case QuadClicked => 4
    case DragStarted => 0
  }

  function PendingReleases(st: State): int {
    if IsClicked(st) then PendingPresses(st) else if IsPressed(st) then PendingPresses(st) - 1 else 0
  }

  // ---- what a button keeps

  /** What holds for any stream of inputs. */
  predicate Sound(b: Button, t: Tally) {
    && (IsPressed(b.st) || b.st.DragStarted? ==> b.held)
    && (IsClicked(b.st) ==> !b.held && b.timeout != 0)
    && !b.st.QuadClicked?
    && (b.held || !b.st.NoState? ==> b.known)
    && t.inOrder && t.drag == (if b.st.DragStarted? then Moved else NotDragging)
  }

  /** What holds when presses and releases alternate. */
  predicate Balanced(b: Button, t: Tally, presses: int, releases: int) {
    && t.presses + PendingPresses(b.st) == presses
    && t.releases + PendingReleases(b.st) == releases
    && (b.st.NoState? ==> t.open == b.held)
    && (IsPressed(b.st) || IsClicked(b.st) ==> !t.open)
  }

  function CountAll(t: Tally, ks: seq<Kind>): Tally
    decreases |ks|
  {
    if ks == [] then t else CountAll(Count(t, ks[0]), ks[1..])
  }

  lemma CountShort(t: Tally, ks: seq<Kind>)
    requires |ks| <= 3
    ensures CountAll(t, ks) ==
      if |ks| == 0 then t else if |ks| == 1 then Count(t, ks[0])
      else if |ks| == 2 then Count(Count(t, ks[0]), ks[1]) else Count(Count(Count(t, ks[0]), ks[1]), ks[2])
  {
    if |ks| > 0 { assert CountAll(t, ks) == CountAll(Count(t, ks[0]), ks[1..]); }
    if |ks| > 1 { assert CountAll(Count(t, ks[0]), ks[1..]) == CountAll(Count(Count(t, ks[0]), ks[1]), ks[1..][1..]); }
  }

  lemma TimeOutKeeps(b: Button, t: Tally)
    requires Waits(b) && Sound(b, t)
    ensures var (b', ks) := OnTimeOut(b); var t' := CountAll(t, ks);
      Sound(b', t') && forall p, r :: Balanced(b, t, p, r) ==> Balanced(b', t', p, r)
  {
    CountShort(t, OnTimeOut(b).1);
  }

  lemma MoveKeeps(b: Button, t: Tally)
    requires Sound(b, t)
    ensures var (b', ks) := OnMove(b); var t' := CountAll(t, ks);
      Sound(b', t') && forall p, r :: Balanced(b, t, p, r) ==> Balanced(b', t', p, r)
  {
    CountShort(t, OnMove(b).1);
  }

  lemma PressKeeps(b: Button, t: Tally, x: int, y: int, now: int, times: Times, multies: bool)
    requires Sound(b, t)
    ensures var (b', ks) := OnPress(b, x, y, now, times, multies); var t' := CountAll(t, ks);
      Sound(b', t') && (!b.held ==> forall p, r :: Balanced(b, t, p, r) ==> Balanced(b', t', p + 1, r))
  {
    CountShort(t, OnPress(b, x, y, now, times, multies).1);
  }

  lemma ReleaseKeeps(b: Button, t: Tally, x: int, y: int, now: int, times: Times, multies: bool)
    requires Sound(b, t)
    ensures var (b', ks) := OnRelease(b, x, y, now, times, multies); var t' := CountAll(t, ks);
      Sound(b', t') && (b.held || !b.known ==> forall p, r :: Balanced(b, t, p, r) ==> Balanced(b', t', p, r + 1))
  {
    CountShort(t, OnRelease(b, x, y, now, times, multies).1);
  }

  // ---- what the program keeps

  lemma {:induction false} CountedMore(out: seq<OutEvent>, m: Mouse, ks: seq<Kind>, b: int, x: int, y: int, but: int)
    requires IsMouse(m) && 1 <= b <= 3 && 1 <= but <= 3
    ensures Counted(out + OutsOf(m, ks, b, x, y), but) ==
      if b == but then CountAll(Counted(out, but), ks) else Counted(out, but)
    decreases |ks|
  {
    hide Count, Bstate, Kbsm;
    if ks == [] {
      assert out + OutsOf(m, ks, b, x, y) == out;
    } else {
      var first := OutOf(m, ks[0], b, x, y);
      CountedOne(out, first, but);
      CountedMore(out + [first], m, ks[1..], b, x, y, but);
      assert out + OutsOf(m, ks, b, x, y) == out + [first] + OutsOf(m, ks[1..], b, x, y);
      if b == but && ks[0] == Move { CountMove(Counted(out, but)); }
    }
  }

  lemma CountMove(t: Tally)
    ensures Count(t, Move) == t
  {
  }

  lemma CountedOne(out: seq<OutEvent>, e: OutEvent, but: int)
    ensures Counted(out + [e], but) == if e.but == but then Count(Counted(out, but), e.kind) else Counted(out, but)
  {
    assert (out + [e])[..|out|] == out;
  }

  /** The button is sound and, when presses and releases alternate, balanced. */
  ghost predicate Kept(m: Mouse, out: seq<OutEvent>, alternating: bool, presses: int, releases: int, but: int)
    requires IsMouse(m) && 1 <= but <= 3
  {
    var b, t := m.buttons[but - 1], Counted(out, but);
    Sound(b, t) && (alternating ==> Balanced(b, t, presses, releases))
  }

  /** One button changes in a way that keeps it sound and balanced; the others stay as they are. */
  lemma ChangeKeeps(m: Mouse, out: seq<OutEvent>, b: int, r: (Button, seq<Kind>), x: int, y: int,
                    alternating: bool, presses: int, releases: int, but: int, presses': int, releases': int)
    requires IsMouse(m) && 1 <= b <= 3 && 1 <= but <= 3 && Kept(m, out, alternating, presses, releases, but)
    requires b == but ==> var t := CountAll(Counted(out, but), r.1);
      Sound(r.0, t) && (alternating ==> Balanced(r.0, t, presses', releases'))
    requires b != but ==> presses' == presses && releases' == releases
    ensures Kept(Change(m, b, r, x, y).0, out + Change(m, b, r, x, y).1, alternating, presses', releases', but)
  {
    hide Sound, Balanced, OutsOf, CountAll;
    CountedMore(out, Change(m, b, r, x, y).0, r.1, b, x, y, but);
  }

  lemma {:induction false} MoveButtonsKeep(m: Mouse, k: int, x: int, y: int, out: seq<OutEvent>,
                                           alternating: bool, presses: int, releases: int, but: int)
    requires IsMouse(m) && 1 <= k <= 4 && 1 <= but <= 3 && Kept(m, out, alternating, presses, releases, but)
    ensures Kept(MoveButtons(m, k, x, y).0, out + MoveButtons(m, k, x, y).1, alternating, presses, releases, but)
    decreases 4 - k
  {
    hide Sound, Balanced, OnMove, Change, CountAll, Counted;
    if k == 4 {
      assert out + [] == out;
    } else {
      var r := OnMove(m.buttons[k - 1]);
      if k == but { MoveKeeps(m.buttons[k - 1], Counted(out, but)); }
      ChangeKeeps(m, out, k, r, x, y, alternating, presses, releases, but, presses, releases);
      var (m1, out1) := Change(m, k, r, x, y);
      ChangeIsMouse(m, k, r, x, y);
      MoveButtonsKeep(m1, k + 1, x, y, out + out1, alternating, presses, releases, but);
      var out2 := MoveButtons(m1, k + 1, x, y).1;
      assert out + out1 + out2 == out + (out1 + out2);
    }
  }

  lemma ChangeIsMouse(m: Mouse, b: int, r: (Button, seq<Kind>), x: int, y: int)
    requires IsMouse(m) && 1 <= b <= 3
    ensures IsMouse(Change(m, b, r, x, y).0)
  {
  }

  function Pressed(i: Input, k: Kind, but: int): int {
    if i.Event? && i.kind == k && i.but == but then 1 else 0
  }

  /** Whatever comes, the buttons stay sound; and balanced, if presses and releases alternate. */
  lemma StepKeeps(m: Mouse, i: Input, mask: set<int>, times: Times, out: seq<OutEvent>,
                  alternating: bool, presses: int, releases: int, but: int)
    requires IsMouse(m) && Possible(m, i) && (alternating ==> Alternates(m, i)) && 1 <= but <= 3
    requires Kept(m, out, alternating, presses, releases, but)
    ensures var (m', more) := Step(m, i, mask, times);
      Kept(m', out + more, alternating, presses + Pressed(i, Press, but), releases + Pressed(i, Release, but), but)
  {
    hide Sound, Balanced, OnTimeOut, OnPress, OnRelease, Change, CountAll, Counted, MoveButtons, MoreMulties, OutOf;
    var p', r' := presses + Pressed(i, Press, but), releases + Pressed(i, Release, but);
    var t := Counted(out, but);
    match i
    case TimeOut(b) =>
      var bt := m.buttons[b - 1];
      if b == but { TimeOutKeeps(bt, t); }
      ChangeKeeps(m, out, b, OnTimeOut(bt), bt.x, bt.y, alternating, presses, releases, but, p', r');
    case Event(kind, b, x, y, now) =>
      match kind
      case Move =>
        if x == m.curx && y == m.cury {
          assert out + [] == out;
        } else {
          var first := OutOf(m, Move, 0, x, y);
          MoveIsFirst(m, x, y);
          CountedOne(out, first, but);
          MoveButtonsKeep(m, 1, x, y, out + [first], alternating, presses, releases, but);
          var out1 := MoveButtons(m, 1, x, y).1;
          assert out + [first] + out1 == out + ([first] + out1);
        }
      case Press =>
        var bt := m.buttons[b - 1];
        var multies := MoreMulties(mask, b, 0);
        if b == but { PressKeeps(bt, t, x, y, now, times, multies); }
        ChangeKeeps(m, out, b, OnPress(bt, x, y, now, times, multies), x, y, alternating, presses, releases, but, p',
          r');
      case Release =>
        var bt := m.buttons[b - 1];
        var multies := MoreMulties(mask, b, Clicks(bt.st));
        if b == but { ReleaseKeeps(bt, t, x, y, now, times, multies); }
        ChangeKeeps(m, out, b, OnRelease(bt, x, y, now, times, multies), x, y, alternating, presses, releases, but,
          p', r');
      case _ =>
        assert out + [] == out;
  }

  lemma MoveIsFirst(m: Mouse, x: int, y: int)
    requires IsMouse(m)
    ensures OutOf(m, Move, 0, x, y).but == 0
  {
  }

  /** Over every run, whatever events are asked for: the states fit the buttons, drags come in order, and when presses
      and releases alternate, each is accounted for by exactly one event or is still pending. */
  lemma {:induction false} RunKeeps(ts: seq<Tick>, times: Times, alternating: bool, but: int)
    requires Inputable(ts) && Feasible(ts, times, alternating) && 1 <= but <= 3
    ensures var (m, out) := Run(ts, times);
      Kept(m, out, alternating, Inputs(ts, Press, but), Inputs(ts, Release, but), but)
    decreases |ts|
  {
    hide Kept, Step, Possible, Alternates;
    if ts == [] {
      StartKept(alternating, but);
    } else {
      var init, last := ts[..|ts| - 1], ts[|ts| - 1];
      RunKeeps(init, times, alternating, but);
      var (m, out) := Run(init, times);
      StepKeeps(m, last.input, last.mask, times, out, alternating, Inputs(init, Press, but),
        Inputs(init, Release, but), but);
    }
  }

  lemma StartKept(alternating: bool, but: int)
    requires 1 <= but <= 3
    ensures Kept(Start, [], alternating, 0, 0, but)
  {
  }
}
