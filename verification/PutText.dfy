/** od_puttext of odoors/ODBlock.c. */
module PutText {
  import opened Words
  import opened RemoteScreen
  import opened Options
  import opened Sequences

  const NoColour := 999

  /** A char is signed. */
  function Signed(b: byte): int {
    if b < 0x80 then b else b - 0x100
  }

  /** The first column from k on that must be redrawn; the length of the row if there is none. */
  function Next(mem: seq<Cell>, test: seq<Cell>, full: bool, k: nat): (n: nat)
    requires |mem| == |test| && k <= |mem|
    ensures k <= n <= |mem|
    ensures full ==> n == k
    ensures !full ==> forall j | k <= j < n :: LookSame(mem[j], test[j])
    ensures !full && n < |mem| ==> !LookSame(mem[n], test[n])
    decreases |mem| - k
  {
    if k == |mem| || full || !LookSame(mem[k], test[k]) then k else Next(mem, test, full, k + 1)
  }

  /** Columns k to n - 1 are sent, colour being the attribute sent last. */
  function Text(mem: seq<Cell>, k: nat, n: nat, colour: int): seq<Op>
    requires k <= n <= |mem|
    decreases n - k
  {
    if k == n then []
    else
      var a := Signed(mem[k].attr);
      (if a != colour then [SetAttr(a)] else []) + [Put(mem[k].ch)] + Text(mem, k + 1, n, a)
  }

  /** How the terminal is driven: od_full_put, and the length of a cursor command. */
  datatype Style = Style(full: bool, moveCost: nat)

  /** What is sent for a row from column k on. */
  function RowOps(st: Style, row: int, left: int, mem: seq<Cell>, test: seq<Cell>, k: nat, colour: int): seq<Op>
    requires |mem| == |test| && k <= |mem|
    decreases |mem| - k
  {
    var n := Next(mem, test, st.full, k);
    if n == |mem| then []
    else StretchOps(st, row, left, mem, k, n, colour) + RowOps(st, row, left, mem, test, n + 1, Signed(mem[n].attr))
  }

  /** A stretch that ends in column n, which must be redrawn; what comes before is skipped if a move is cheaper. */
  function StretchOps(st: Style, row: int, left: int, mem: seq<Cell>, k: nat, n: nat, colour: int): seq<Op>
    requires k <= n < |mem|
  {
    if Skips(st, k, n) then [Move(row, left + n)] + Text(mem, n, n + 1, colour) else Text(mem, k, n + 1, colour)
  }

  predicate Skips(st: Style, k: nat, n: nat) {
    k == 0 || n - k > st.moveCost
  }

  function RowColour(mem: seq<Cell>, test: seq<Cell>, full: bool, k: nat, colour: int): int
    requires |mem| == |test| && k <= |mem|
    decreases |mem| - k
  {
    var n := Next(mem, test, full, k);
    if n == |mem| then colour else RowColour(mem, test, full, n + 1, Signed(mem[n].attr))
  }

  // ---- what a row looks like afterwards

  /** Nothing but the columns from lo to hi - 1 of the row has been changed. */
  ghost predicate Outside(t: Term, t': Term, row: int, lo: int, hi: int) {
    forall y, x :: !(y == row && lo <= x < hi) ==> t'.cells(y, x) == t.cells(y, x)
  }

  /** The attribute sent last is the one in effect, unless it was the one that counts as no change. */
  predicate InEffect(t: Term, colour: int) {
    colour == NoColour || colour == -1 || colour % 0x100 == t.attr
  }

  /** The attribute in effect when a cell with attribute m is sent, a being in effect before. */
  function Taken(a: byte, m: byte): byte {
    if m == 0xff then a else m
  }

  /** The same when columns k to j have been sent: the last of their attributes that is not FF. */
  function TextEffect(mem: seq<Cell>, k: nat, j: int, a: byte): byte
    requires j < |mem|
    decreases if j < k then 0 else j - k + 1
  {
    if j < k then a else Taken(TextEffect(mem, k, j - 1, a), mem[j].attr)
  }

  lemma {:induction false} EffectFirst(mem: seq<Cell>, k: nat, j: int, a: byte)
    requires k <= j < |mem|
    ensures TextEffect(mem, k, j, a) == TextEffect(mem, k + 1, j, Taken(a, mem[k].attr))
    decreases j
  {
    if k < j { EffectFirst(mem, k, j - 1, a); }
  }

  ghost predicate TextShown(t: Term, t': Term, mem: seq<Cell>, k: nat, n: nat)
    requires k <= n <= |mem|
  {
    && t'.row == t.row && t'.col == t.col + (n - k) && t'.attr == TextEffect(mem, k, n - 1, t.attr)
    && Outside(t, t', t.row, t.col, t.col + (n - k))
    && forall j | k <= j < n :: t'.cells(t.row, t.col + (j - k)) == Cell(mem[j].ch, TextEffect(mem, k, j, t.attr))
  }

  /** Text puts its cells where the cursor is, each in the colours in effect. */
  lemma {:induction false} TextRuns(t: Term, mem: seq<Cell>, k: nat, n: nat, colour: int)
    requires k <= n <= |mem| && InEffect(t, colour)
    ensures TextShown(t, Run(t, Text(mem, k, n, colour)), mem, k, n)
    ensures InEffect(Run(t, Text(mem, k, n, colour)), if k == n then colour else Signed(mem[n - 1].attr))
    decreases n - k
  {
    hide Text, TextEffect, Run;
    if k == n {
      NoText(t, mem, k, colour);
    } else {
      var a := Signed(mem[k].attr);
      var t1 := if a != colour then Do(t, SetAttr(a)) else t;
      var t2 := Do(t1, Put(mem[k].ch));
      TextStep(t, mem, k, n, colour);
      TextRuns(t2, mem, k + 1, n, a);
      CellSent(t, mem[k], colour);
      TextLonger(t, t2, Run(t, Text(mem, k, n, colour)), mem, k, n);
    }
  }

  lemma NoText(t: Term, mem: seq<Cell>, k: nat, colour: int)
    requires k <= |mem|
    ensures Run(t, Text(mem, k, k, colour)) == t && TextEffect(mem, k, k - 1, t.attr) == t.attr
  {
  }

  /** One cell is sent. */
  lemma CellSent(t: Term, m: Cell, colour: int)
    requires InEffect(t, colour)
    ensures var a := Signed(m.attr);
      var t1 := if a != colour then Do(t, SetAttr(a)) else t;
      t1 == t.(attr := Taken(t.attr, m.attr)) && InEffect(t1, a)
  {
  }

  lemma TextLonger(t: Term, t2: Term, t': Term, mem: seq<Cell>, k: nat, n: nat)
    requires k < n <= |mem| && TextShown(t2, t', mem, k + 1, n)
    requires t2 == Do(t.(attr := Taken(t.attr, mem[k].attr)), Put(mem[k].ch))
    ensures TextShown(t, t', mem, k, n)
  {
    hide TextEffect, Taken;
    EffectFirst(mem, k, n - 1, t.attr);
    forall j | k <= j < n
      ensures t'.cells(t.row, t.col + (j - k)) == Cell(mem[j].ch, TextEffect(mem, k, j, t.attr))
    {
      EffectFirst(mem, k, j, t.attr);
      if j == k {
        NoEffect(mem, k, t2.attr);
      } else {
        assert t'.cells(t2.row, t2.col + (j - (k + 1))) == Cell(mem[j].ch, TextEffect(mem, k + 1, j, t2.attr));
      }
    }
  }

  lemma NoEffect(mem: seq<Cell>, k: nat, a: byte)
    requires k < |mem|
    ensures TextEffect(mem, k + 1, k, a) == a
  {
  }

  lemma TextStep(t: Term, mem: seq<Cell>, k: nat, n: nat, colour: int)
    requires k < n <= |mem|
    ensures var a := Signed(mem[k].attr);
      var t1 := if a != colour then Do(t, SetAttr(a)) else t;
      Run(t, Text(mem, k, n, colour)) == Run(Do(t1, Put(mem[k].ch)), Text(mem, k + 1, n, a))
  {
    var a := Signed(mem[k].attr);
    var rest := Text(mem, k + 1, n, a);
    if a != colour {
      assert ([SetAttr(a)] + [Put(mem[k].ch)] + rest)[1..] == [Put(mem[k].ch)] + rest;
    } else {
      assert [] + [Put(mem[k].ch)] + rest == [Put(mem[k].ch)] + rest;
    }
    assert ([Put(mem[k].ch)] + rest)[1..] == rest;
  }

  /** Column j is among those sent from column k on. */
  predicate Drawn(st: Style, mem: seq<Cell>, test: seq<Cell>, k: nat, j: nat)
    requires |mem| == |test| && k <= |mem|
    decreases |mem| - k
  {
    var n := Next(mem, test, st.full, k);
    if n == |mem| then false
    else if j <= n then k <= j && (Skips(st, k, n) ==> j == n)
    else Drawn(st, mem, test, n + 1, j)
  }

  /** Where the cursor goes on writing. */
  predicate Placed(t: Term, row: int, left: int, k: nat) {
    k > 0 ==> t.row == row && t.col == left + k
  }

  /** The attribute in effect when column j is sent, or would be: the last one sent from column k on that is not FF,
      or the one in effect before. */
  function Effect(st: Style, mem: seq<Cell>, test: seq<Cell>, k: nat, j: int, a: byte): byte
    requires |mem| == |test| && k <= |mem| && j < |mem|
    decreases if j < k then 0 else j - k + 1
  {
    if j < k then a
    else
      var e := Effect(st, mem, test, k, j - 1, a);
      if Drawn(st, mem, test, k, j) then Taken(e, mem[j].attr) else e
  }

  ghost predicate StretchShown(t: Term, t': Term, row: int, left: int, mem: seq<Cell>, k: nat, n: nat)
    requires k <= n < |mem|
  {
    && t'.attr == TextEffect(mem, k, n, t.attr)
    && Outside(t, t', row, left + k, left + n + 1)
    && forall j | k <= j <= n :: t'.cells(row, left + j) == Cell(mem[j].ch, TextEffect(mem, k, j, t.attr))
  }

  lemma StretchRuns(t: Term, st: Style, row: int, left: int, mem: seq<Cell>, k: nat, n: nat, colour: int)
    requires k <= n < |mem| && Placed(t, row, left, k) && InEffect(t, colour)
    ensures var t' := Run(t, StretchOps(st, row, left, mem, k, n, colour));
      && Placed(t', row, left, n + 1) && InEffect(t', Signed(mem[n].attr))
      && StretchShown(t, t', row, left, mem, First(st, k, n), n)
  {
    hide TextEffect, Text, InEffect, Signed;
    var k' := First(st, k, n);
    var t1 := if Skips(st, k, n) then Do(t, Move(row, left + n)) else t;
    if Skips(st, k, n) {
      assert StretchOps(st, row, left, mem, k, n, colour)[1..] == Text(mem, n, n + 1, colour);
      StillInEffect(t, row, left + n, colour);
    }
    TextRuns(t1, mem, k', n + 1, colour);
    var t' := Run(t1, Text(mem, k', n + 1, colour));
    forall j | k' <= j <= n
      ensures t'.cells(row, left + j) == Cell(mem[j].ch, TextEffect(mem, k', j, t.attr))
    {
      assert t'.cells(t1.row, t1.col + (j - k')) == Cell(mem[j].ch, TextEffect(mem, k', j, t1.attr));
    }
  }

  lemma StillInEffect(t: Term, row: int, col: int, colour: int)
    requires InEffect(t, colour)
    ensures InEffect(Do(t, Move(row, col)), colour)
  {
  }

  /** Where the text of a stretch begins. */
  function First(st: Style, k: nat, n: nat): nat {
    if Skips(st, k, n) then n else k
  }

  /** The cells of the row from column k on that are sent come out in the colours in effect, the others stay. */
  ghost predicate RowShown(t: Term, t': Term, st: Style, row: int, left: int, mem: seq<Cell>, test: seq<Cell>, k: nat)
    requires |mem| == |test| && k <= |mem|
  {
    && t'.attr == Effect(st, mem, test, k, |mem| - 1, t.attr)
    && Outside(t, t', row, left + k, left + |mem|)
    && forall j | k <= j < |mem| :: CellShown(t, t', st, row, left, mem, test, k, j)
  }

  ghost predicate CellShown(t: Term, t': Term, st: Style, row: int, left: int, mem: seq<Cell>,
                            test: seq<Cell>, k: nat, j: nat)
    requires |mem| == |test| && k <= |mem| && j < |mem|
  {
    t'.cells(row, left + j) ==
      if Drawn(st, mem, test, k, j) then Cell(mem[j].ch, Effect(st, mem, test, k, j, t.attr))
      else t.cells(row, left + j)
  }

  lemma {:induction false} RowRuns(t: Term, st: Style, row: int, left: int, mem: seq<Cell>, test: seq<Cell>,
                                   k: nat, colour: int)
    requires |mem| == |test| && k <= |mem| && Placed(t, row, left, k) && InEffect(t, colour)
    ensures var t' := Run(t, RowOps(st, row, left, mem, test, k, colour));
      RowShown(t, t', st, row, left, mem, test, k) && InEffect(t', RowColour(mem, test, st.full, k, colour))
    decreases |mem| - k
  {
    hide RowShown, StretchShown, Skips, InEffect, StretchOps, LookSame, Signed, Placed;
    var n := Next(mem, test, st.full, k);
    if n < |mem| {
      var ops := StretchOps(st, row, left, mem, k, n, colour);
      var t1 := Run(t, ops);
      StretchRuns(t, st, row, left, mem, k, n, colour);
      RunConcat(t, ops, RowOps(st, row, left, mem, test, n + 1, Signed(mem[n].attr)));
      RowRuns(t1, st, row, left, mem, test, n + 1, Signed(mem[n].attr));
      RowJoined(t, t1, Run(t, RowOps(st, row, left, mem, test, k, colour)), st, row, left, mem, test, k);
    } else {
      RowAsBefore(t, st, row, left, mem, test, k);
    }
  }

  lemma RowAsBefore(t: Term, st: Style, row: int, left: int, mem: seq<Cell>, test: seq<Cell>, k: nat)
    requires |mem| == |test| && k <= |mem| && Next(mem, test, st.full, k) == |mem|
    ensures RowShown(t, t, st, row, left, mem, test, k)
  {
    hide LookSame, Next;
    NoneDrawn(st, mem, test, k, |mem| - 1, t.attr);
  }

  lemma {:induction false} NoneDrawn(st: Style, mem: seq<Cell>, test: seq<Cell>, k: nat, j: int, a: byte)
    requires |mem| == |test| && k <= |mem| && j < |mem| && Next(mem, test, st.full, k) == |mem|
    ensures Effect(st, mem, test, k, j, a) == a
    decreases if j < k then 0 else j - k + 1
  {
    hide LookSame, Next;
    if k <= j { NoneDrawn(st, mem, test, k, j - 1, a); }
  }

  /** A stretch up to column n, and then the rest of the row. */
  lemma RowJoined(t: Term, t1: Term, t': Term, st: Style, row: int, left: int, mem: seq<Cell>, test: seq<Cell>, k: nat)
    requires |mem| == |test| && k <= |mem|
    requires var n := Next(mem, test, st.full, k);
      && n < |mem| && RowShown(t1, t', st, row, left, mem, test, n + 1)
      && StretchShown(t, t1, row, left, mem, First(st, k, n), n)
    ensures RowShown(t, t', st, row, left, mem, test, k)
  {
    hide LookSame, Skips, Drawn, Next, Effect, TextEffect;
    var n := Next(mem, test, st.full, k);
    EffectJoined(st, mem, test, k, |mem| - 1, t.attr);
    NotYet(st, mem, test, n + 1, n, t1.attr);
    forall j | k <= j < |mem|
      ensures CellShown(t, t', st, row, left, mem, test, k, j)
    {
      DrawnAt(st, mem, test, k, j);
      EffectJoined(st, mem, test, k, j, t.attr);
      if j > n { assert CellShown(t1, t', st, row, left, mem, test, n + 1, j); }
    }
  }

  lemma NotYet(st: Style, mem: seq<Cell>, test: seq<Cell>, k: nat, j: int, a: byte)
    requires |mem| == |test| && k <= |mem| && j < |mem| && j < k
    ensures Effect(st, mem, test, k, j, a) == a
  {
  }

  /** The attribute in effect in the first stretch, and behind it. */
  lemma {:induction false} EffectJoined(st: Style, mem: seq<Cell>, test: seq<Cell>, k: nat, j: nat, a: byte)
    requires |mem| == |test| && k <= j < |mem| && Next(mem, test, st.full, k) < |mem|
    ensures var n := Next(mem, test, st.full, k);
      Effect(st, mem, test, k, j, a) ==
        if j <= n then TextEffect(mem, First(st, k, n), j, a)
        else Effect(st, mem, test, n + 1, j, TextEffect(mem, First(st, k, n), n, a))
    decreases j
  {
    hide LookSame, Skips, Drawn, Next, Taken;
    var n := Next(mem, test, st.full, k);
    DrawnAt(st, mem, test, k, j);
    if k < j { EffectJoined(st, mem, test, k, j - 1, a); }
  }

  lemma DrawnAt(st: Style, mem: seq<Cell>, test: seq<Cell>, k: nat, j: nat)
    requires |mem| == |test| && k <= j < |mem| && Next(mem, test, st.full, k) < |mem|
    ensures var n := Next(mem, test, st.full, k);
      Drawn(st, mem, test, k, j) == if j <= n then First(st, k, n) <= j else Drawn(st, mem, test, n + 1, j)
  {
    hide LookSame, Next;
  }

  /** What is not sent looks as required already. */
  lemma {:induction false} NotDrawn(st: Style, mem: seq<Cell>, test: seq<Cell>, k: nat, j: nat)
    requires |mem| == |test| && k <= j < |mem| && !Drawn(st, mem, test, k, j)
    ensures !st.full && LookSame(mem[j], test[j])
    decreases |mem| - k
  {
    hide LookSame;
    var n := Next(mem, test, st.full, k);
    if n < j { NotDrawn(st, mem, test, n + 1, j); }
  }

  // ---- what it costs

  lemma {:induction false} TextCost(mem: seq<Cell>, k: nat, n: nat, colour: int, moveCost: nat)
    requires k <= n <= |mem|
    ensures Cost(Text(mem, k, n, colour), moveCost) == n - k
    decreases n - k
  {
    hide Cost, Signed;
    if k == n {
      NothingCosts(moveCost);
    } else {
      var a := Signed(mem[k].attr);
      var change, rest := if a != colour then [SetAttr(a)] else [], Text(mem, k + 1, n, a);
      TextCost(mem, k + 1, n, a, moveCost);
      CostConcat(change + [Put(mem[k].ch)], rest, moveCost);
      CostConcat(change, [Put(mem[k].ch)], moveCost);
      CostOne(Put(mem[k].ch), moveCost);
      CostOne(SetAttr(a), moveCost);
      NothingCosts(moveCost);
    }
  }

  /** From column k on, a row never costs more than its remaining characters, and one move for its beginning; and
      just that when all is sent. */
  lemma {:induction false} RowCost(st: Style, row: int, left: int, mem: seq<Cell>, test: seq<Cell>, k: nat, colour: int)
    requires |mem| == |test| && k <= |mem|
    ensures Cost(RowOps(st, row, left, mem, test, k, colour), st.moveCost) <=
            (if k == 0 then st.moveCost else 0) + |mem| - k
    ensures st.full && mem != [] ==> Cost(RowOps(st, row, left, mem, test, k, colour), st.moveCost) ==
                                     (if k == 0 then st.moveCost else 0) + |mem| - k
    decreases |mem| - k
  {
    hide Text, LookSame, Signed, Cost;
    var n := Next(mem, test, st.full, k);
    NothingCosts(st.moveCost);
    if n < |mem| {
      RowCost(st, row, left, mem, test, n + 1, Signed(mem[n].attr));
      var rest := RowOps(st, row, left, mem, test, n + 1, Signed(mem[n].attr));
      CostConcat(StretchOps(st, row, left, mem, k, n, colour), rest, st.moveCost);
      if Skips(st, k, n) {
        CostConcat([Move(row, left + n)], Text(mem, n, n + 1, colour), st.moveCost);
        CostOne(Move(row, left + n), st.moveCost);
        TextCost(mem, n, n + 1, colour, st.moveCost);
      } else {
        TextCost(mem, k, n + 1, colour, st.moveCost);
      }
    }
  }

  /** A row is a stretch and the rest, or nothing. */
  lemma RowParts(st: Style, row: int, left: int, mem: seq<Cell>, test: seq<Cell>, k: nat, colour: int)
    requires |mem| == |test| && k <= |mem|
    ensures var n := Next(mem, test, st.full, k);
      if n == |mem| then
        RowOps(st, row, left, mem, test, k, colour) == [] && RowColour(mem, test, st.full, k, colour) == colour
      else
        var a := Signed(mem[n].attr);
        && RowOps(st, row, left, mem, test, k, colour) ==
             StretchOps(st, row, left, mem, k, n, colour) + RowOps(st, row, left, mem, test, n + 1, a)
        && RowColour(mem, test, st.full, k, colour) == RowColour(mem, test, st.full, n + 1, a)
  {
    hide Next, Signed, StretchOps;
  }

  /** The columns from k on that look otherwise than required. */
  function Changes(mem: seq<Cell>, test: seq<Cell>, k: nat): nat
    requires |mem| == |test| && k <= |mem|
    decreases |mem| - k
  {
    if k == |mem| then 0 else (if LookSame(mem[k], test[k]) then 0 else 1) + Changes(mem, test, k + 1)
  }

  lemma {:induction false} ChangesFrom(mem: seq<Cell>, test: seq<Cell>, k: nat)
    requires |mem| == |test| && k <= |mem|
    ensures var n := Next(mem, test, false, k);
      Changes(mem, test, k) == if n == |mem| then 0 else 1 + Changes(mem, test, n + 1)
    decreases |mem| - k
  {
    hide LookSame;
    if k < |mem| && LookSame(mem[k], test[k]) { ChangesFrom(mem, test, k + 1); }
  }

  /** Every column that has to be changed costs at most a move and a character, whatever lies between. */
  lemma {:induction false} ChangesCost(st: Style, row: int, left: int, mem: seq<Cell>, test: seq<Cell>, k: nat,
                                       colour: int)
    requires |mem| == |test| && k <= |mem| && !st.full
    ensures Cost(RowOps(st, row, left, mem, test, k, colour), st.moveCost) <=
            (st.moveCost + 1) * Changes(mem, test, k)
    decreases |mem| - k
  {
    hide LookSame, Signed, Cost, StretchOps, Changes, Next, RowOps;
    var n := Next(mem, test, false, k);
    NothingCosts(st.moveCost);
    RowParts(st, row, left, mem, test, k, colour);
    ChangesFrom(mem, test, k);
    if n < |mem| {
      var ops, rest := StretchOps(st, row, left, mem, k, n, colour),
        RowOps(st, row, left, mem, test, n + 1, Signed(mem[n].attr));
      ChangesCost(st, row, left, mem, test, n + 1, Signed(mem[n].attr));
      CostConcat(ops, rest, st.moveCost);
      StretchCost(st, row, left, mem, k, n, colour);
      OneMoreChange(st.moveCost + 1, Changes(mem, test, n + 1));
    }
  }

  lemma OneMoreChange(a: nat, n: nat)
    ensures a * (1 + n) == a + a * n
  {
  }

  lemma StretchCost(st: Style, row: int, left: int, mem: seq<Cell>, k: nat, n: nat, colour: int)
    requires k <= n < |mem|
    ensures Cost(StretchOps(st, row, left, mem, k, n, colour), st.moveCost) ==
            1 + if k > 0 && n - k <= st.moveCost then n - k else st.moveCost
  {
    hide Text, Cost;
    if Skips(st, k, n) {
      CostConcat([Move(row, left + n)], Text(mem, n, n + 1, colour), st.moveCost);
      CostOne(Move(row, left + n), st.moveCost);
      TextCost(mem, n, n + 1, colour, st.moveCost);
    } else {
      TextCost(mem, k, n + 1, colour, st.moveCost);
    }
  }

  /** Column j lies in a gap of at most width columns between two that have to be changed. */
  ghost predicate InGap(mem: seq<Cell>, test: seq<Cell>, j: nat, width: nat)
    requires |mem| == |test|
  {
    exists a, b :: IsGap(mem, test, a, b) && a < j < b && b - a - 1 <= width
  }

  ghost predicate IsGap(mem: seq<Cell>, test: seq<Cell>, a: int, b: int)
    requires |mem| == |test|
  {
    && 0 <= a < b < |mem| && !LookSame(mem[a], test[a]) && !LookSame(mem[b], test[b])
    && forall i | a < i < b :: LookSame(mem[i], test[i])
  }

  /** Just the columns that have to be changed are sent, and those in gaps between them that are no wider than a cursor
      command is long. */
  lemma {:induction false} DrawnIff(st: Style, mem: seq<Cell>, test: seq<Cell>, k: nat, j: nat)
    requires |mem| == |test| && k <= j < |mem| && !st.full
    requires k > 0 ==> !LookSame(mem[k - 1], test[k - 1])
    ensures Drawn(st, mem, test, k, j) <==> !LookSame(mem[j], test[j]) || InGap(mem, test, j, st.moveCost)
    decreases |mem| - k
  {
    hide LookSame, InGap;
    var n := Next(mem, test, false, k);
    if n < j {
      DrawnIff(st, mem, test, n + 1, j);
    } else if j < n {
      GapHere(mem, test, k, n, j, st.moveCost);
    }
  }

  lemma GapHere(mem: seq<Cell>, test: seq<Cell>, k: nat, n: nat, j: nat, width: nat)
    requires |mem| == |test| && k <= j < n <= |mem| && (n < |mem| ==> !LookSame(mem[n], test[n]))
    requires k > 0 ==> !LookSame(mem[k - 1], test[k - 1])
    requires forall i | k <= i < n :: LookSame(mem[i], test[i])
    ensures InGap(mem, test, j, width) <==> 0 < k && n < |mem| && n - k <= width
  {
    hide LookSame;
    if InGap(mem, test, j, width) {
      var a, b :| IsGap(mem, test, a, b) && a < j < b && b - a - 1 <= width;
      assert a < k && n <= b;
      assert a == k - 1 && b == n;
    } else if 0 < k && n < |mem| {
      assert IsGap(mem, test, k - 1, n);
    }
  }

  /** Nothing is sent for a row that looks as required. */
  lemma RowUnchanged(st: Style, row: int, left: int, mem: seq<Cell>, test: seq<Cell>, colour: int)
    requires |mem| == |test|
    ensures RowOps(st, row, left, mem, test, 0, colour) == [] <==>
      mem == [] || (!st.full && forall j | 0 <= j < |mem| :: LookSame(mem[j], test[j]))
  {
    hide LookSame, Signed;
    var n := Next(mem, test, st.full, 0);
    if n < |mem| { assert StretchOps(st, row, left, mem, 0, n, colour) != []; }
  }

  /** A cell that is sent comes out as required exactly when its attribute is in effect: its own, unless that is FF,
      which counts as no change. */
  lemma DrawnExactly(t: Term, st: Style, row: int, left: int, mem: seq<Cell>, test: seq<Cell>, colour: int, j: nat)
    requires |mem| == |test| && InEffect(t, colour) && j < |mem| && Drawn(st, mem, test, 0, j)
    ensures var t' := Run(t, RowOps(st, row, left, mem, test, 0, colour));
      var e := Effect(st, mem, test, 0, j, t.attr);
      && t'.cells(row, left + j) == Cell(mem[j].ch, e) && (mem[j].attr != 0xff ==> e == mem[j].attr)
      && (t'.cells(row, left + j) == mem[j] <==> e == mem[j].attr)
  {
    hide Drawn, InEffect;
    RowRuns(t, st, row, left, mem, test, 0, colour);
    assert CellShown(t, Run(t, RowOps(st, row, left, mem, test, 0, colour)), st, row, left, mem, test, 0, j);
  }

  // ---- the block

  /** A block of cells, row by row. */
  type Block = seq<seq<Cell>>

  predicate SameShape(a: Block, b: Block) {
    |a| == |b| && forall r | 0 <= r < |a| :: |a[r]| == |b[r]|
  }

  function BlockOps(st: Style, row: int, left: int, mem: Block, test: Block, colour: int): seq<Op>
    requires SameShape(mem, test)
    decreases |mem|
  {
    if mem == [] then []
    else
      RowOps(st, row, left, mem[0], test[0], 0, colour)
      + BlockOps(st, row + 1, left, mem[1..], test[1..], RowColour(mem[0], test[0], st.full, 0, colour))
  }

  predicate Sendable(mem: Block) {
    forall r, j | 0 <= r < |mem| && 0 <= j < |mem[r]| :: mem[r][j].attr != 0xff
  }

  /** The terminal shows what the block test says, as far as that matters. */
  ghost predicate LooksLike(t: Term, row: int, left: int, test: Block) {
    forall r, j | 0 <= r < |test| && 0 <= j < |test[r]| :: LookSame(t.cells(row + r, left + j), test[r][j])
  }

  lemma LookSameBack(a: Cell, b: Cell, c: Cell)
    requires LookSame(a, b) && LookSame(c, b)
    ensures LookSame(c, a)
  {
  }

  /** Nothing but rows from lo on in the given columns has been changed. */
  ghost predicate Beyond(t: Term, t': Term, lo: int, hi: int, left: int, right: int) {
    forall y, x :: !(lo <= y < hi && left <= x < right) ==> t'.cells(y, x) == t.cells(y, x)
  }

  predicate Wide(mem: Block, w: nat) {
    forall r | 0 <= r < |mem| :: |mem[r]| == w
  }

  /** The attribute in effect when row r begins. */
  function Before(st: Style, mem: Block, test: Block, r: nat, a: byte): byte
    requires SameShape(mem, test) && r <= |mem|
  {
    if r == 0 then a else Effect(st, mem[r - 1], test[r - 1], 0, |mem[r - 1]| - 1, Before(st, mem, test, r - 1, a))
  }

  lemma {:induction false} BeforeFirst(st: Style, mem: Block, test: Block, r: nat, a: byte)
    requires mem != [] && SameShape(mem, test) && r < |mem|
    ensures SameShape(mem[1..], test[1..])
    ensures Before(st, mem, test, r + 1, a) ==
      Before(st, mem[1..], test[1..], r, Effect(st, mem[0], test[0], 0, |mem[0]| - 1, a))
  {
    hide Effect;
    if r > 0 { BeforeFirst(st, mem, test, r - 1, a); }
  }

  predicate IsDrawn(st: Style, mem: Block, test: Block, r: nat, j: nat)
    requires SameShape(mem, test) && r < |mem| && j < |mem[r]|
  {
    Drawn(st, mem[r], test[r], 0, j)
  }

  /** The attribute in effect when cell j of row r is sent. */
  function BlockEffect(st: Style, mem: Block, test: Block, a: byte, r: nat, j: nat): byte
    requires SameShape(mem, test) && r < |mem| && j < |mem[r]|
  {
    Effect(st, mem[r], test[r], 0, j, Before(st, mem, test, r, a))
  }

  /** The cells that are sent come out in the colours in effect, the others stay. */
  ghost predicate Exactly(t: Term, t': Term, st: Style, row: int, left: int, mem: Block, test: Block, r: nat, j: nat)
    requires SameShape(mem, test) && r < |mem| && j < |mem[r]|
  {
    t'.cells(row + r, left + j) ==
      if IsDrawn(st, mem, test, r, j) then Cell(mem[r][j].ch, BlockEffect(st, mem, test, t.attr, r, j))
      else t.cells(row + r, left + j)
  }

  ghost predicate BlockShown(t: Term, t': Term, st: Style, row: int, left: int, mem: Block, test: Block, w: nat)
    requires SameShape(mem, test)
  {
    && Beyond(t, t', row, row + |mem|, left, left + w)
    && forall r, j | 0 <= r < |mem| && 0 <= j < |mem[r]| :: Exactly(t, t', st, row, left, mem, test, r, j)
  }

  /** What a terminal shows after the redraw, cell by cell. */
  lemma {:induction false} BlockRuns(t: Term, st: Style, row: int, left: int, mem: Block, test: Block, colour: int,
                                     w: nat)
    requires SameShape(mem, test) && Wide(mem, w) && InEffect(t, colour)
    ensures BlockShown(t, Run(t, BlockOps(st, row, left, mem, test, colour)), st, row, left, mem, test, w)
    decreases |mem|
  {
    hide RowOps, RowColour, InEffect, RowShown, BlockShown;
    if mem == [] {
      NoRows(t, st, row, left, mem, test, w);
    } else {
      var ops := RowOps(st, row, left, mem[0], test[0], 0, colour);
      var colour1 := RowColour(mem[0], test[0], st.full, 0, colour);
      var rest := BlockOps(st, row + 1, left, mem[1..], test[1..], colour1);
      var t1 := Run(t, ops);
      RunConcat(t, ops, rest);
      RowRuns(t, st, row, left, mem[0], test[0], 0, colour);
      BlockRuns(t1, st, row + 1, left, mem[1..], test[1..], colour1, w);
      RowsJoined(t, t1, Run(t1, rest), st, row, left, mem, test, w);
    }
  }

  lemma NoRows(t: Term, st: Style, row: int, left: int, mem: Block, test: Block, w: nat)
    requires mem == [] && SameShape(mem, test)
    ensures BlockShown(t, t, st, row, left, mem, test, w)
  {
  }

  lemma RowsJoined(t: Term, t1: Term, t': Term, st: Style, row: int, left: int, mem: Block, test: Block, w: nat)
    requires mem != [] && SameShape(mem, test) && Wide(mem, w) && SameShape(mem[1..], test[1..])
    requires RowShown(t, t1, st, row, left, mem[0], test[0], 0)
    requires BlockShown(t1, t', st, row + 1, left, mem[1..], test[1..], w)
    ensures BlockShown(t, t', st, row, left, mem, test, w)
  {
    hide Drawn, Effect;
    forall r, j | 0 <= r < |mem| && 0 <= j < |mem[r]|
      ensures Exactly(t, t', st, row, left, mem, test, r, j)
    {
      if r == 0 {
        assert CellShown(t, t1, st, row, left, mem[0], test[0], 0, j);
      } else {
        assert Exactly(t1, t', st, row + 1, left, mem[1..], test[1..], r - 1, j);
        BeforeFirst(st, mem, test, r - 1, t.attr);
        assert t1.cells(row + r, left + j) == t.cells(row + r, left + j);
      }
    }
  }

  /** Colours are right in a cell whose attribute does not count as no change, and in others if it happens to be in
      effect, or if nothing but the background is seen and that is the same. */
  predicate ColoursRight(m: Cell, e: byte) {
    m.attr == 0xff ==> e == 0xff || (Blank(m) && Background(e) == 7)
  }

  predicate RightAt(st: Style, mem: Block, test: Block, a: byte, r: nat, j: nat)
    requires SameShape(mem, test) && r < |mem| && j < |mem[r]|
  {
    IsDrawn(st, mem, test, r, j) ==> ColoursRight(mem[r][j], BlockEffect(st, mem, test, a, r, j))
  }

  predicate AllRight(st: Style, mem: Block, test: Block, a: byte)
    requires SameShape(mem, test)
  {
    forall r, j | 0 <= r < |mem| && 0 <= j < |mem[r]| :: RightAt(st, mem, test, a, r, j)
  }

  lemma {:induction false} OwnColour(st: Style, mem: seq<Cell>, test: seq<Cell>, j: nat, a: byte)
    requires |mem| == |test| && j < |mem| && Drawn(st, mem, test, 0, j)
    ensures mem[j].attr != 0xff ==> Effect(st, mem, test, 0, j, a) == mem[j].attr
  {
  }

  lemma RightIff(m: Cell, e: byte)
    requires m.attr != 0xff ==> e == m.attr
    ensures LookSame(Cell(m.ch, e), m) <==> ColoursRight(m, e)
  {
  }

  /** The redraw by differences touches nothing else, and looks like a full redraw in every cell exactly when the
      colours of those with attribute FF that are sent happen to be right. */
  lemma BlockRedrawn(t: Term, st: Style, row: int, left: int, mem: Block, test: Block, colour: int, w: nat)
    requires SameShape(mem, test) && Wide(mem, w) && InEffect(t, colour)
    requires !st.full ==> LooksLike(t, row, left, test)
    ensures var t' := Run(t, BlockOps(st, row, left, mem, test, colour));
      && Beyond(t, t', row, row + |mem|, left, left + w)
      && (forall r, j | 0 <= r < |mem| && 0 <= j < |mem[r]| ::
            LookSame(t'.cells(row + r, left + j), mem[r][j]) <==> RightAt(st, mem, test, t.attr, r, j))
      && (LooksLike(t', row, left, mem) <==> AllRight(st, mem, test, t.attr))
    ensures Sendable(mem) ==> AllRight(st, mem, test, t.attr)
  {
    hide LookSame, ColoursRight, BlockEffect, InEffect, IsDrawn;
    var t' := Run(t, BlockOps(st, row, left, mem, test, colour));
    BlockRuns(t, st, row, left, mem, test, colour, w);
    forall r, j | 0 <= r < |mem| && 0 <= j < |mem[r]|
      ensures LookSame(t'.cells(row + r, left + j), mem[r][j]) <==> RightAt(st, mem, test, t.attr, r, j)
    {
      assert Exactly(t, t', st, row, left, mem, test, r, j);
      CellRight(t, st, row, left, mem, test, r, j);
    }
    if Sendable(mem) { SendableRight(st, mem, test, t.attr); }
  }

  lemma CellRight(t: Term, st: Style, row: int, left: int, mem: Block, test: Block, r: nat, j: nat)
    requires SameShape(mem, test) && r < |mem| && j < |mem[r]|
    requires !st.full ==> LooksLike(t, row, left, test)
    ensures IsDrawn(st, mem, test, r, j) ==>
      var e := BlockEffect(st, mem, test, t.attr, r, j);
      LookSame(Cell(mem[r][j].ch, e), mem[r][j]) <==> ColoursRight(mem[r][j], e)
    ensures !IsDrawn(st, mem, test, r, j) ==> LookSame(t.cells(row + r, left + j), mem[r][j])
  {
    hide LookSame, ColoursRight, Drawn, Effect;
    if IsDrawn(st, mem, test, r, j) {
      var a := Before(st, mem, test, r, t.attr);
      OwnColour(st, mem[r], test[r], j, a);
      RightIff(mem[r][j], Effect(st, mem[r], test[r], 0, j, a));
    } else {
      NotDrawn(st, mem[r], test[r], 0, j);
      assert LookSame(t.cells(row + r, left + j), test[r][j]);
      LookSameBack(mem[r][j], test[r][j], t.cells(row + r, left + j));
    }
  }

  lemma SendableRight(st: Style, mem: Block, test: Block, a: byte)
    requires SameShape(mem, test) && Sendable(mem)
    ensures AllRight(st, mem, test, a)
  {
    hide IsDrawn, BlockEffect;
    forall r, j | 0 <= r < |mem| && 0 <= j < |mem[r]|
      ensures RightAt(st, mem, test, a, r, j)
    {
      assert mem[r][j].attr != 0xff;
    }
  }

  lemma {:induction false} BlockCost(st: Style, row: int, left: int, mem: Block, test: Block, colour: int, w: nat)
    requires SameShape(mem, test) && Wide(mem, w)
    ensures Cost(BlockOps(st, row, left, mem, test, colour), st.moveCost) <= |mem| * (st.moveCost + w)
    ensures st.full && w > 0 ==>
              Cost(BlockOps(st, row, left, mem, test, colour), st.moveCost) == |mem| * (st.moveCost + w)
    decreases |mem|
  {
    hide RowOps, RowColour, Cost;
    if mem == [] {
      NothingCosts(st.moveCost);
    } else {
      var ops := RowOps(st, row, left, mem[0], test[0], 0, colour);
      var colour1 := RowColour(mem[0], test[0], st.full, 0, colour);
      var rest := BlockOps(st, row + 1, left, mem[1..], test[1..], colour1);
      RowCost(st, row, left, mem[0], test[0], 0, colour);
      BlockCost(st, row + 1, left, mem[1..], test[1..], colour1, w);
      CostConcat(ops, rest, st.moveCost);
      OneMore(|mem|, st.moveCost + w);
    }
  }

  // ---- attributes

  /** No attribute is asked for again that has been asked for last; colour is the one before. */
  predicate AsksOnce(ops: seq<Op>, colour: int)
    decreases |ops|
  {
    ops == [] ||
    match ops[0]
    case SetAttr(a) => a != colour && AsksOnce(ops[1..], a)
    case _ => AsksOnce(ops[1..], colour)
  }

  function AskedLast(ops: seq<Op>, colour: int): int
    decreases |ops|
  {
    if ops == [] then colour else AskedLast(ops[1..], match ops[0] case SetAttr(a) => a case _ => colour)
  }

  lemma {:induction false} AskedConcat(a: seq<Op>, b: seq<Op>, colour: int)
    ensures AskedLast(a + b, colour) == AskedLast(b, AskedLast(a, colour))
    ensures AsksOnce(a + b, colour) <==> AsksOnce(a, colour) && AsksOnce(b, AskedLast(a, colour))
    decreases |a|
  {
    if a == [] {
      assert a + b == b;
    } else {
      assert (a + b)[1..] == a[1..] + b;
      AskedConcat(a[1..], b, match a[0] case SetAttr(c) => c case _ => colour);
    }
  }

  lemma AskedOne(op: Op, colour: int)
    ensures AskedLast([op], colour) == match op case SetAttr(a) => a case _ => colour
    ensures AsksOnce([op], colour) <==> op != SetAttr(colour)
    ensures AskedLast([], colour) == colour && AsksOnce([], colour)
  {
    assert [op][1..] == [];
  }

  lemma {:induction false} TextAsks(mem: seq<Cell>, k: nat, n: nat, colour: int)
    requires k <= n <= |mem|
    ensures AsksOnce(Text(mem, k, n, colour), colour)
    ensures AskedLast(Text(mem, k, n, colour), colour) == if k == n then colour else Signed(mem[n - 1].attr)
    decreases n - k
  {
    hide AsksOnce, AskedLast, Signed;
    AskedOne(Put(0), colour);
    if k < n {
      var a := Signed(mem[k].attr);
      var change, rest := if a != colour then [SetAttr(a)] else [], Text(mem, k + 1, n, a);
      TextAsks(mem, k + 1, n, a);
      AskedOne(SetAttr(a), colour);
      AskedOne(Put(mem[k].ch), a);
      AskedConcat(change, [Put(mem[k].ch)], colour);
      AskedConcat(change + [Put(mem[k].ch)], rest, colour);
    }
  }

  lemma {:induction false} RowAsks(st: Style, row: int, left: int, mem: seq<Cell>, test: seq<Cell>, k: nat, colour: int)
    requires |mem| == |test| && k <= |mem|
    ensures AsksOnce(RowOps(st, row, left, mem, test, k, colour), colour)
    ensures AskedLast(RowOps(st, row, left, mem, test, k, colour), colour) == RowColour(mem, test, st.full, k, colour)
    decreases |mem| - k
  {
    hide AsksOnce, AskedLast, Signed, Next, RowOps, RowColour, StretchOps;
    var n := Next(mem, test, st.full, k);
    AskedOne(Put(0), colour);
    RowParts(st, row, left, mem, test, k, colour);
    if n < |mem| {
      var a := Signed(mem[n].attr);
      var ops, rest := StretchOps(st, row, left, mem, k, n, colour), RowOps(st, row, left, mem, test, n + 1, a);
      RowAsks(st, row, left, mem, test, n + 1, a);
      StretchAsks(st, row, left, mem, k, n, colour);
      AskedConcat(ops, rest, colour);
    }
  }

  lemma StretchAsks(st: Style, row: int, left: int, mem: seq<Cell>, k: nat, n: nat, colour: int)
    requires k <= n < |mem|
    ensures AsksOnce(StretchOps(st, row, left, mem, k, n, colour), colour)
    ensures AskedLast(StretchOps(st, row, left, mem, k, n, colour), colour) == Signed(mem[n].attr)
  {
    hide AsksOnce, AskedLast, Signed, Text;
    TextAsks(mem, First(st, k, n), n + 1, colour);
    AskedOne(Move(row, left + n), colour);
    AskedConcat([Move(row, left + n)], Text(mem, n, n + 1, colour), colour);
  }

  /** Attributes are only sent where they change. */
  lemma {:induction false} BlockAsks(st: Style, row: int, left: int, mem: Block, test: Block, colour: int)
    requires SameShape(mem, test)
    ensures AsksOnce(BlockOps(st, row, left, mem, test, colour), colour)
    decreases |mem|
  {
    hide RowOps, RowColour, AsksOnce, AskedLast;
    AskedOne(Put(0), colour);
    if mem != [] {
      var c := RowColour(mem[0], test[0], st.full, 0, colour);
      RowAsks(st, row, left, mem[0], test[0], 0, colour);
      BlockAsks(st, row + 1, left, mem[1..], test[1..], c);
      AskedConcat(RowOps(st, row, left, mem[0], test[0], 0, colour),
        BlockOps(st, row + 1, left, mem[1..], test[1..], c), colour);
    }
  }

  lemma NothingCosts(moveCost: nat)
    ensures Cost([], moveCost) == 0
  {
  }

  lemma OneMore(n: nat, k: int)
    ensures n * k == (n - 1) * k + k
  {
  }

  // ---- the method

  datatype Error = NoError | Parameter | NoGraphics

  /** The columns of a block of the local screen, counted from 1. */
  function Saved(screen: Block, left: int, top: int, right: int, bottom: int): (b: Block)
    requires 1 <= left <= right && 1 <= top <= bottom <= |screen|
    requires forall r | 0 <= r < |screen| :: right <= |screen[r]|
    ensures |b| == bottom - top + 1 && Wide(b, right - left + 1)
  {
    seq(bottom - top + 1, r requires 0 <= r < bottom - top + 1 => screen[top - 1 + r][left - 1..right])
  }

  /** The screen with a block put in. */
  function Patched(screen: Block, left: int, top: int, block: Block, w: nat): (b: Block)
    requires 1 <= left && 1 <= top && top - 1 + |block| <= |screen| && Wide(block, w)
    requires forall r | 0 <= r < |screen| :: left - 1 + w <= |screen[r]|
    ensures SameShape(b, screen)
  {
    seq(|screen|, r requires 0 <= r < |screen| =>
      if top - 1 <= r < top - 1 + |block| then
        screen[r][..left - 1] + block[r - (top - 1)] + screen[r][left - 1 + w..]
      else screen[r])
  }

  /** Local display and remote session; the output window is the whole screen. */
  class Display {
    const userAnsi: bool
    const userAvatar: bool
    const remote: bool
    const fullPut: bool
    const scrollAction: bool
    const width: nat
    var screen: Block
    var curx: int
    var cury: int
    var attribute: byte
    var sent: seq<Op>
    var error: Error

    predicate Valid()
      reads this
    {
      Wide(screen, width)
    }

    function DrawStyle(): Style {
      Style(fullPut, if userAvatar then 4 else 7)
    }

    /** The parameters are refused. */
    predicate Refused(left: int, top: int, right: int, bottom: int, block: Option<Block>)
      reads this
    {
      left < 1 || top < 1 || right > width || bottom > |screen| || top > bottom || left > right || block.None?
    }

    /** Everything that od_puttext sends. */
    function Redraw(left: int, top: int, right: int, bottom: int, block: Block): seq<Op>
      reads this
      requires Valid() && !Refused(left, top, right, bottom, Some(block))
      requires |block| == bottom - top + 1 && Wide(block, right - left + 1)
    {
      BlockOps(DrawStyle(), top, left, block, Saved(screen, left, top, right, bottom), NoColour) + Tail()
    }

    /** What restores cursor and attribute. */
    function Tail(): seq<Op>
      reads this`curx, this`cury, this`attribute
    {
      (if scrollAction then [Move(cury, curx)] else []) + [SetAttr(attribute)]
    }

    /** od_puttext */
    method PutText(left: int, top: int, right: int, bottom: int, block: Option<Block>) returns (ok: bool)
      requires Valid()
      requires !Refused(left, top, right, bottom, block) ==>
                 |block.value| == bottom - top + 1 && Wide(block.value, right - left + 1)
      modifies this`screen, this`sent, this`error
      ensures ok <==> 1 <= left <= right <= width && 1 <= top <= bottom <= |screen| && block.Some? &&
                      (userAnsi || userAvatar)
      ensures Valid() && ok == (!old(Refused(left, top, right, bottom, block)) && (userAnsi || userAvatar))
      ensures !ok ==> screen == old(screen) && sent == old(sent)
      ensures !ok ==> error == if old(Refused(left, top, right, bottom, block)) then Parameter else NoGraphics
      ensures ok ==> screen == Patched(old(screen), left, top, block.value, right - left + 1)
      ensures ok ==>
                sent == if remote then old(sent) + old(Redraw(left, top, right, bottom, block.value)) else old(sent)
    {
      hide Saved, Patched, BlockOps, DrawStyle, Tail;
      if left < 1 || top < 1 || right > width || bottom > |screen| || top > bottom || left > right || block == None {
        error := Parameter;
        return false;
      }
      if !userAnsi && !userAvatar {
        error := NoGraphics;
        return false;
      }
      var buffer := Saved(screen, left, top, right, bottom);
      screen := Patched(screen, left, top, block.value, right - left + 1);
      if remote {
        RedrawBlock(left, top, bottom, block.value, buffer);
        SendTail();
        Regroup(old(sent), BlockOps(DrawStyle(), top, left, block.value, buffer, NoColour), Tail());
      }
      ok := true;
    }

    /** Cursor and attribute are restored. */
    method SendTail()
      modifies this`sent
      ensures sent == old(sent) + Tail()
    {
      if scrollAction {
        sent := sent + [Move(cury, curx)];
      }
      sent := sent + [SetAttr(attribute)];
    }

    /** The loop over the rows. */
    method RedrawBlock(left: int, top: int, bottom: int, block: Block, buffer: Block)
      requires SameShape(block, buffer) && |block| == bottom - top + 1 >= 1
      modifies this`sent
      ensures sent == old(sent) + BlockOps(DrawStyle(), top, left, block, buffer, NoColour)
    {
      hide RowOps, RowColour, BlockOps;
      var outColour := NoColour;
      var outRow, blockRow := top, 0;
      ghost var goal := old(sent) + BlockOps(DrawStyle(), top, left, block, buffer, NoColour);
      assert block[0..] == block && buffer[0..] == buffer;
      while outRow <= bottom
        invariant 0 <= blockRow <= |block| && outRow == top + blockRow
        invariant SameShape(block[blockRow..], buffer[blockRow..])
        invariant sent + BlockOps(DrawStyle(), outRow, left, block[blockRow..], buffer[blockRow..], outColour) == goal
        decreases bottom - outRow
      {
        BlockStep(DrawStyle(), outRow, left, block, buffer, blockRow, outColour, sent);
        outColour := RedrawRow(outRow, left, block[blockRow], buffer[blockRow], outColour);
        outRow := outRow + 1;
        blockRow := blockRow + 1;
      }
      NothingLeft(DrawStyle(), outRow, left, block[blockRow..], buffer[blockRow..], outColour, sent);
    }

    /** One row: what need not be redrawn is skipped where a cursor command is shorter. */
    method RedrawRow(outRow: int, left: int, mem: seq<Cell>, test: seq<Cell>, colour: int) returns (outColour: int)
      requires |mem| == |test|
      modifies this`sent
      ensures sent == old(sent) + RowOps(DrawStyle(), outRow, left, mem, test, 0, colour)
      ensures outColour == RowColour(mem, test, fullPut, 0, colour)
    {
      hide Next, Signed, StretchOps, RowOps, RowColour;
      outColour := colour;
      var outColumn := 0;
      ghost var st := DrawStyle();
      ghost var goal := old(sent) + RowOps(st, outRow, left, mem, test, 0, colour);
      while outColumn < |mem|
        invariant 0 <= outColumn <= |mem|
        invariant sent + RowOps(st, outRow, left, mem, test, outColumn, outColour) == goal
        invariant RowColour(mem, test, fullPut, outColumn, outColour) == RowColour(mem, test, fullPut, 0, colour)
        decreases |mem| - outColumn
      {
        var checkColumn := FindChange(mem, test, outColumn);
        if checkColumn == |mem| {
          RowEnd(st, outRow, left, mem, test, outColumn, outColour, sent);
          return;
        }
        RowStep(st, outRow, left, mem, test, outColumn, outColour, sent);
        outColour := RedrawStretch(outRow, left, mem, outColumn, checkColumn, outColour);
        outColumn := checkColumn + 1;
      }
      RowEnd(st, outRow, left, mem, test, outColumn, outColour, sent);
    }

    /** The move, if one is worth it, and the text up to the column that has to be changed. */
    method RedrawStretch(outRow: int, left: int, mem: seq<Cell>, column: nat, checkColumn: nat, colour: int)
      returns (outColour: int)
      requires column <= checkColumn < |mem|
      modifies this`sent
      ensures sent == old(sent) + StretchOps(DrawStyle(), outRow, left, mem, column, checkColumn, colour)
      ensures outColour == Signed(mem[checkColumn].attr)
    {
      hide Signed, Text;
      var moveCost := if userAvatar then 4 else 7;
      var outColumn := column;
      if outColumn == 0 {
        outColumn := checkColumn;
        sent := sent + [Move(outRow, left + outColumn)];
      } else if checkColumn - outColumn > moveCost {
        outColumn := checkColumn;
        sent := sent + [Move(outRow, left + outColumn)];
      }
      outColour := SendText(mem, outColumn, checkColumn, colour);
    }

    /** The comparison loop. */
    method FindChange(mem: seq<Cell>, test: seq<Cell>, outColumn: nat) returns (checkColumn: nat)
      requires |mem| == |test| && outColumn <= |mem|
      ensures checkColumn == Next(mem, test, fullPut, outColumn)
    {
      checkColumn := outColumn;
      while checkColumn < |mem|
        invariant outColumn <= checkColumn <= |mem|
        invariant Next(mem, test, fullPut, checkColumn) == Next(mem, test, fullPut, outColumn)
        decreases |mem| - checkColumn
      {
        if fullPut {
          break;
        }
        var m, s := mem[checkColumn], test[checkColumn];
        if (m.ch == ' ' as int || m.ch == 0) && (s.ch == ' ' as int || s.ch == 0) {
          if Background(s.attr) != Background(m.attr) {
            break;
          }
        } else if s != m {
          break;
        }
        checkColumn := checkColumn + 1;
      }
    }

    /** The output loop. */
    method SendText(mem: seq<Cell>, from: nat, last: nat, colour: int) returns (outColour: int)
      requires from <= last < |mem|
      modifies this`sent
      ensures sent == old(sent) + Text(mem, from, last + 1, colour) && outColour == Signed(mem[last].attr)
    {
      hide Text, Signed;
      outColour := colour;
      var outColumn := from;
      ghost var goal := old(sent) + Text(mem, from, last + 1, colour);
      while outColumn <= last
        invariant from <= outColumn <= last + 1
        invariant sent + Text(mem, outColumn, last + 1, outColour) == goal
        invariant outColumn > from ==> outColour == Signed(mem[outColumn - 1].attr)
        decreases last + 1 - outColumn
      {
        TextGoesOn(mem, outColumn, last + 1, outColour, sent);
        if Signed(mem[outColumn].attr) != outColour {
          outColour := Signed(mem[outColumn].attr);
          sent := sent + [SetAttr(outColour)];
        }
        sent := sent + [Put(mem[outColumn].ch)];
        outColumn := outColumn + 1;
      }
      TextEnds(mem, last + 1, outColour, sent);
    }
  }

  lemma TextGoesOn(mem: seq<Cell>, k: nat, n: nat, colour: int, before: seq<Op>)
    requires k < n <= |mem|
    ensures var a := Signed(mem[k].attr);
      var coloured := if a != colour then before + [SetAttr(a)] else before;
      before + Text(mem, k, n, colour) == coloured + [Put(mem[k].ch)] + Text(mem, k + 1, n, a)
  {
    hide Signed;
  }

  lemma TextEnds(mem: seq<Cell>, n: nat, colour: int, before: seq<Op>)
    requires n <= |mem|
    ensures before + Text(mem, n, n, colour) == before
  {
  }

  lemma RowStep(st: Style, row: int, left: int, mem: seq<Cell>, test: seq<Cell>, k: nat, colour: int, before: seq<Op>)
    requires |mem| == |test| && k <= |mem| && Next(mem, test, st.full, k) < |mem|
    ensures var n := Next(mem, test, st.full, k);
      before + RowOps(st, row, left, mem, test, k, colour) ==
      before + StretchOps(st, row, left, mem, k, n, colour)
      + RowOps(st, row, left, mem, test, n + 1, Signed(mem[n].attr))
    ensures var n := Next(mem, test, st.full, k);
      RowColour(mem, test, st.full, k, colour) == RowColour(mem, test, st.full, n + 1, Signed(mem[n].attr))
  {
    hide Next, Signed, StretchOps;
  }

  lemma RowEnd(st: Style, row: int, left: int, mem: seq<Cell>, test: seq<Cell>, k: nat, colour: int, before: seq<Op>)
    requires |mem| == |test| && k <= |mem| && (k == |mem| || Next(mem, test, st.full, k) == |mem|)
    ensures before + RowOps(st, row, left, mem, test, k, colour) == before
    ensures RowColour(mem, test, st.full, k, colour) == colour
  {
  }

  lemma NothingLeft(st: Style, row: int, left: int, mem: Block, test: Block, colour: int, before: seq<Op>)
    requires mem == [] && SameShape(mem, test)
    ensures before + BlockOps(st, row, left, mem, test, colour) == before
  {
  }

  lemma BlockStep(st: Style, row: int, left: int, mem: Block, test: Block, k: nat, colour: int, before: seq<Op>)
    requires SameShape(mem, test) && k < |mem| && SameShape(mem[k..], test[k..])
    ensures SameShape(mem[k + 1..], test[k + 1..])
    ensures before + BlockOps(st, row, left, mem[k..], test[k..], colour) ==
      before + RowOps(st, row, left, mem[k], test[k], 0, colour)
      + BlockOps(st, row + 1, left, mem[k + 1..], test[k + 1..], RowColour(mem[k], test[k], st.full, 0, colour))
  {
    hide RowOps, RowColour;
    assert mem[k..][1..] == mem[k + 1..] && test[k..][1..] == test[k + 1..];
  }

  // ---- the session

  /** The terminal shows the local screen, as far as that matters. */
  ghost predicate Mirrors(t: Term, screen: Block) {
    LooksLike(t, 1, 1, screen)
  }

  /** The terminal goes on mirroring the local screen exactly when the colours of cells with attribute FF that are
      sent happen to be right; cursor and attribute are as they were. */
  lemma MirrorKept(t: Term, d: Display, left: int, top: int, right: int, bottom: int, block: Block)
    requires d.Valid() && !d.Refused(left, top, right, bottom, Some(block))
    requires |block| == bottom - top + 1 && Wide(block, right - left + 1)
    requires Mirrors(t, d.screen)
    ensures var t' := Run(t, d.Redraw(left, top, right, bottom, block));
      && t'.attr == d.attribute && (d.scrollAction ==> t'.row == d.cury && t'.col == d.curx)
      && var test := Saved(d.screen, left, top, right, bottom);
      Mirrors(t', Patched(d.screen, left, top, block, right - left + 1)) <==>
      AllRight(d.DrawStyle(), block, test, t.attr)
    ensures Sendable(block) ==>
              AllRight(d.DrawStyle(), block, Saved(d.screen, left, top, right, bottom), t.attr)
  {
    hide LookSame, BlockOps, Saved, Patched, AllRight, Sendable, Display.DrawStyle, Display.Tail, Run;
    var w, st := right - left + 1, d.DrawStyle();
    var test := Saved(d.screen, left, top, right, bottom);
    var ops := BlockOps(st, top, left, block, test, NoColour);
    SavedLooks(t, d.screen, left, top, right, bottom);
    BlockRedrawn(t, st, top, left, block, test, NoColour, w);
    PatchedLooks(t, Run(t, ops), d.screen, left, top, block, w);
    RunConcat(t, ops, d.Tail());
    TailRuns(Run(t, ops), d);
    SameMirror(Run(t, ops), Run(t, ops + d.Tail()), Patched(d.screen, left, top, block, w));
  }

  /** A block is refused exactly when it has no cells or not all of them are on the screen. */
  lemma AcceptedIff(d: Display, left: int, top: int, right: int, bottom: int, block: Option<Block>)
    ensures !d.Refused(left, top, right, bottom, block) <==>
      && block.Some? && left <= right && top <= bottom
      && forall x, y :: left <= x <= right && top <= y <= bottom ==> OnScreen(d, x, y)
  {
    if block.Some? && left <= right && top <= bottom &&
       forall x, y :: left <= x <= right && top <= y <= bottom ==> OnScreen(d, x, y) {
      assert OnScreen(d, left, top) && OnScreen(d, right, bottom);
    }
  }

  predicate OnScreen(d: Display, x: int, y: int)
    reads d
  {
    1 <= x <= d.width && 1 <= y <= |d.screen|
  }

  /** In numbers: 4 is the length of an AVATAR cursor command, 7 what an ANSI one is taken for. */
  lemma RowSparing(d: Display, row: int, left: int, mem: seq<Cell>, test: seq<Cell>, colour: int, j: nat)
    requires |mem| == |test| && !d.fullPut && j < |mem|
    ensures var length := if d.userAvatar then 4 else 7;
      && Cost(RowOps(d.DrawStyle(), row, left, mem, test, 0, colour), length) <= (length + 1) * Changes(mem, test, 0)
      && (Drawn(d.DrawStyle(), mem, test, 0, j) <==> !LookSame(mem[j], test[j]) || InGap(mem, test, j, length))
  {
    hide RowOps, Drawn, LookSame, InGap, Changes;
    ChangesCost(d.DrawStyle(), row, left, mem, test, 0, colour);
    DrawnIff(d.DrawStyle(), mem, test, 0, j);
  }

  /** The redraw by differences never costs more than a full redraw. */
  lemma RedrawCost(d: Display, left: int, top: int, right: int, bottom: int, block: Block)
    requires d.Valid() && !d.Refused(left, top, right, bottom, Some(block))
    requires |block| == bottom - top + 1 && Wide(block, right - left + 1)
    ensures var moveCost, test := d.DrawStyle().moveCost, Saved(d.screen, left, top, right, bottom);
      Cost(d.Redraw(left, top, right, bottom, block), moveCost) <=
      Cost(BlockOps(Style(true, moveCost), top, left, block, test, NoColour) + d.Tail(), moveCost)
  {
    hide BlockOps, Saved, Cost, Display.DrawStyle, Display.Tail;
    var w, st := right - left + 1, d.DrawStyle();
    var full := Style(true, st.moveCost);
    var test := Saved(d.screen, left, top, right, bottom);
    BlockCost(st, top, left, block, test, NoColour, w);
    BlockCost(full, top, left, block, test, NoColour, w);
    CostConcat(BlockOps(st, top, left, block, test, NoColour), d.Tail(), st.moveCost);
    CostConcat(BlockOps(full, top, left, block, test, NoColour), d.Tail(), st.moveCost);
  }

  lemma SameMirror(t: Term, t': Term, screen: Block)
    requires t'.cells == t.cells
    ensures Mirrors(t, screen) <==> Mirrors(t', screen)
  {
    hide LookSame;
    if Mirrors(t, screen) {
      forall r, j | 0 <= r < |screen| && 0 <= j < |screen[r]|
        ensures LookSame(t'.cells(1 + r, 1 + j), screen[r][j])
      {
        assert LookSame(t.cells(1 + r, 1 + j), screen[r][j]);
      }
    }
    if Mirrors(t', screen) {
      forall r, j | 0 <= r < |screen| && 0 <= j < |screen[r]|
        ensures LookSame(t.cells(1 + r, 1 + j), screen[r][j])
      {
        assert LookSame(t'.cells(1 + r, 1 + j), screen[r][j]);
      }
    }
  }

  lemma SavedLooks(t: Term, screen: Block, left: int, top: int, right: int, bottom: int)
    requires 1 <= left <= right && 1 <= top <= bottom <= |screen|
    requires forall r | 0 <= r < |screen| :: right <= |screen[r]|
    requires Mirrors(t, screen)
    ensures LooksLike(t, top, left, Saved(screen, left, top, right, bottom))
  {
    hide LookSame;
    var b := Saved(screen, left, top, right, bottom);
    forall r, j | 0 <= r < |b| && 0 <= j < |b[r]|
      ensures LookSame(t.cells(top + r, left + j), b[r][j])
    {
      assert LookSame(t.cells(1 + (top - 1 + r), 1 + (left - 1 + j)), screen[top - 1 + r][left - 1 + j]);
    }
  }

  /** Cells of the screen with the block, and of the block. */
  lemma PatchedCells(screen: Block, left: int, top: int, block: Block, w: nat)
    requires 1 <= left && 1 <= top && top - 1 + |block| <= |screen| && Wide(block, w)
    requires forall r | 0 <= r < |screen| :: left - 1 + w <= |screen[r]|
    ensures var b := Patched(screen, left, top, block, w);
      forall r, j | 0 <= r < |b| && 0 <= j < |b[r]| ::
        b[r][j] == if top - 1 <= r < top - 1 + |block| && left - 1 <= j < left - 1 + w
                   then block[r - (top - 1)][j - (left - 1)] else screen[r][j]
  {
  }

  /** The screen with the block is mirrored exactly when the block is. */
  lemma PatchedLooks(t: Term, t': Term, screen: Block, left: int, top: int, block: Block, w: nat)
    requires 1 <= left && 1 <= top && top - 1 + |block| <= |screen| && Wide(block, w)
    requires forall r | 0 <= r < |screen| :: left - 1 + w <= |screen[r]|
    requires Mirrors(t, screen) && Beyond(t, t', top, top + |block|, left, left + w)
    ensures Mirrors(t', Patched(screen, left, top, block, w)) <==> LooksLike(t', top, left, block)
  {
    hide LookSame, Patched;
    var b := Patched(screen, left, top, block, w);
    PatchedCells(screen, left, top, block, w);
    if LooksLike(t', top, left, block) {
      forall r, j | 0 <= r < |b| && 0 <= j < |b[r]|
        ensures LookSame(t'.cells(1 + r, 1 + j), b[r][j])
      {
        var y, x := r - (top - 1), j - (left - 1);
        if 0 <= y < |block| && 0 <= x < w {
          assert LookSame(t'.cells(top + y, left + x), block[y][x]);
        } else {
          assert LookSame(t.cells(1 + r, 1 + j), screen[r][j]);
        }
      }
    }
    if Mirrors(t', b) {
      forall y, x | 0 <= y < |block| && 0 <= x < |block[y]|
        ensures LookSame(t'.cells(top + y, left + x), block[y][x])
      {
        var r, j := y + (top - 1), x + (left - 1);
        assert LookSame(t'.cells(1 + r, 1 + j), b[r][j]);
      }
    }
  }

  lemma TailRuns(t: Term, d: Display)
    ensures var t' := Run(t, d.Tail());
      t'.cells == t.cells && t'.attr == d.attribute && (d.scrollAction ==> t'.row == d.cury && t'.col == d.curx)
  {
    var move := if d.scrollAction then [Move(d.cury, d.curx)] else [];
    RunConcat(t, move, [SetAttr(d.attribute)]);
    RunOne(t, Move(d.cury, d.curx));
    RunOne(Run(t, move), SetAttr(d.attribute));
  }

  /** A white blinking letter on white is sent in the wrong colours: its attribute FF is taken for -1, no change. */
  lemma WhiteOnWhite(t: Term, st: Style)
    requires t.attr == 0x07
    ensures var ops := BlockOps(st, 1, 1, [[Cell('A' as int, 0xff)]], [[Cell(' ' as int, 0x07)]], NoColour);
      Run(t, ops).cells(1, 1) == Cell('A' as int, 0x07)
  {
    var mem, test := [Cell('A' as int, 0xff)], [Cell(' ' as int, 0x07)];
    var ops := [Move(1, 1), SetAttr(-1), Put('A' as int)];
    assert Text(mem, 0, 1, NoColour) == [SetAttr(-1)] + [Put('A' as int)] + [];
    assert RowOps(st, 1, 1, mem, test, 0, NoColour) == ops;
    assert [mem][1..] == [] && BlockOps(st, 1, 1, [mem], [test], NoColour) == ops + [];
    assert ops == [Move(1, 1)] + ([SetAttr(-1)] + [Put('A' as int)]);
    RunConcat(t, [Move(1, 1)], [SetAttr(-1)] + [Put('A' as int)]);
    RunOne(t, Move(1, 1));
    var t1 := Do(t, Move(1, 1));
    RunConcat(t1, [SetAttr(-1)], [Put('A' as int)]);
    RunOne(t1, SetAttr(-1));
    RunOne(t1, Put('A' as int));
    assert BlockOps(st, 1, 1, [mem], [test], NoColour) == ops;
    assert Run(t, ops) == Do(t1, Put('A' as int));
  }
}
