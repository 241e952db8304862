/** The remote terminal as od_puttext of odoors/ODBlock.c sees it: what is sent are cursor moves, attribute changes
    and characters. */
module RemoteScreen {
  import opened Words

  /** A character and its colours. */
  datatype Cell = Cell(ch: byte, attr: byte)

  datatype Op = Move(row: int, col: int) | SetAttr(attr: int) | Put(ch: byte)

  datatype Term = Term(cells: (int, int) -> Cell, row: int, col: int, attr: byte)

  /** What a character does to the screen: the cursor goes on in the same row. */
  function Write(cells: (int, int) -> Cell, row: int, col: int, c: Cell): (int, int) -> Cell {
    (y, x) => if y == row && x == col then c else cells(y, x)
  }

  /** An attribute of -1 stands for no change in od_set_attrib; of others, eight bits are sent. */
  function Do(t: Term, op: Op): Term {
    match op
    case Move(row, col) => t.(row := row, col := col)
    case SetAttr(a) => if a == -1 then t else t.(attr := a % 0x100)
    case Put(ch) => t.(cells := Write(t.cells, t.row, t.col, Cell(ch, t.attr)), col := t.col + 1)
  }

  function Run(t: Term, ops: seq<Op>): Term
    decreases |ops|
  {
    if ops == [] then t else Run(Do(t, ops[0]), ops[1..])
  }

  lemma {:induction false} RunConcat(t: Term, a: seq<Op>, b: seq<Op>)
    ensures Run(t, a + b) == Run(Run(t, a), b)
    decreases |a|
  {
    if a == [] {
      assert a + b == b;
    } else {
      assert (a + b)[1..] == a[1..] + b;
      RunConcat(Do(t, a[0]), a[1..], b);
    }
  }

  lemma RunOne(t: Term, op: Op)
    ensures Run(t, [op]) == Do(t, op)
  {
    assert [op][1..] == [];
  }

  /** A cursor move costs as many characters as its command has; attribute changes are not counted. */
  function Cost(ops: seq<Op>, moveCost: nat): nat
    decreases |ops|
  {
    if ops == [] then 0
    else (match ops[0] case Move(_, _) => moveCost case SetAttr(_) => 0 case Put(_) => 1) + Cost(ops[1..], moveCost)
  }

  lemma {:induction false} CostConcat(a: seq<Op>, b: seq<Op>, moveCost: nat)
    ensures Cost(a + b, moveCost) == Cost(a, moveCost) + Cost(b, moveCost)
    decreases |a|
  {
    if a == [] {
      assert a + b == b;
    } else {
      assert (a + b)[1..] == a[1..] + b;
      CostConcat(a[1..], b, moveCost);
    }
  }

  lemma CostOne(op: Op, moveCost: nat)
    ensures Cost([op], moveCost) == match op case Move(_, _) => moveCost case SetAttr(_) => 0 case Put(_) => 1
  {
    assert [op][1..] == [];
  }

  predicate Blank(c: Cell) {
    c.ch == ' ' as int || c.ch == 0
  }

  function Background(attr: byte): int {
    attr / 0x10 % 8
  }

  /** Two cells look the same: they are equal, or both are blank on the same background. */
  predicate LookSame(a: Cell, b: Cell) {
    if Blank(a) && Blank(b) then Background(a.attr) == Background(b.attr) else a == b
  }

  /** Of a space or a zero only the background can be seen: bits 4 to 6 of the attribute. */
  lemma LookSameIff(a: Cell, b: Cell)
    ensures LookSame(a, b) <==>
      a == b || ((a.ch == 0x20 || a.ch == 0) && (b.ch == 0x20 || b.ch == 0) && (a.attr / 16 - b.attr / 16) % 8 == 0)
  {
  }
}
