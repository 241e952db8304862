/** A terminal that understands the cursor controls of ECMA-48 which conio/ansi_cio.c sends, byte by byte. */
module AnsiTerminal {
  import opened Words
  import opened Options

  datatype Cell = Cell(ch: char, attr: byte)

  /** Between the bytes of a control sequence: its parameters so far and the one being read. In doorway mode the
      byte behind a zero is shown as it is. */
  datatype Mode = Ground | Escape | Csi(params: seq<Option<int>>, param: Option<int>) | Literal

  datatype Term = Term(cells: (int, int) -> Cell, row: int, col: int, pending: bool, attr: byte, mode: Mode)

  /** Terminals differ: a character in the last column wraps at once or when the next one comes, and control
      characters other than those interpreted here may do anything. */
  datatype Model = Model(width: int, height: int, deferred: bool, doorway: bool, control: (Term, char) -> Term)

  predicate IsModel(s: Model) {
    s.width >= 1 && s.height >= 1
  }

  function Clamp(x: int, hi: int): int {
    if x < 1 then 1 else if x > hi then hi else x
  }

  function MoveTo(s: Model, t: Term, row: int, col: int): Term {
    t.(row := Clamp(row, s.height), col := Clamp(col, s.width), pending := false, mode := Ground)
  }

  /** A parameter that is missing or zero stands for one. */
  function Param(p: Option<int>): int {
    if p.None? || p.value == 0 then 1 else p.value
  }

  /** The final byte of a control sequence: sections 8.3.18 to 8.3.22 of ECMA-48. */
  function Final(s: Model, t: Term, params: seq<Option<int>>, param: Option<int>, b: char): Term {
    match b
    case 'A' => MoveTo(s, t, t.row - Param(param), t.col)
    case 'B' => MoveTo(s, t, t.row + Param(param), t.col)
    case 'C' => MoveTo(s, t, t.row, t.col + Param(param))
    case 'D' => MoveTo(s, t, t.row, t.col - Param(param))
    case 'H' =>
      if |params| == 0 then MoveTo(s, t, Param(param), 1)
      else MoveTo(s, t, Param(params[0]), Param(if |params| == 1 then param else params[1]))
    case _ => t.(mode := Ground)
  }

  /** One line down; at the bottom everything moves up. */
  function LineFeed(s: Model, t: Term): Term {
    if t.row < s.height then t.(row := t.row + 1, pending := false)
    else
      t.(cells := (y, x) => if y < s.height then t.cells(y + 1, x) else Cell(' ', t.attr), pending := false)
  }

  function Put(s: Model, t: Term, b: char): Term {
    var t := if t.pending then LineFeed(s, t).(col := 1) else t;
    var t := t.(cells := Write(t.cells, t.row, t.col, Cell(b, t.attr)), mode := Ground);
    if t.col < s.width then t.(col := t.col + 1)
    else if s.deferred then t.(pending := true)
    else LineFeed(s, t).(col := 1)
  }

  function Write(cells: (int, int) -> Cell, row: int, col: int, c: Cell): (int, int) -> Cell {
    (y, x) => if y == row && x == col then c else cells(y, x)
  }

  function Digit(p: Option<int>, b: char): Option<int> {
    Some((if p.None? then 0 else p.value * 10) + (b as int - '0' as int))
  }

  function Feed(s: Model, t: Term, b: char): Term {
    match t.mode
    case Literal => Put(s, t, b)
    case Escape =>
      if b == '[' then t.(mode := Csi([], None)) else if b == '\U{1b}' then t else t.(mode := Ground)
    case Csi(params, param) =>
      if '0' <= b <= '9' then t.(mode := Csi(params, Digit(param, b)))
      else if b == ';' then t.(mode := Csi(params + [param], None))
      else Final(s, t, params, param, b)
    case Ground =>
      if b == '\U{1b}' then t.(mode := Escape)
      else if b == '\r' then t.(col := 1, pending := false)
      else if b == '\n' then LineFeed(s, t)
      else if b == '\0' then if s.doorway then t.(mode := Literal) else t
      else if b < ' ' then s.control(t, b).(mode := Ground)
      else Put(s, t, b)
  }

  function FeedAll(s: Model, t: Term, str: string): Term
    decreases |str|
  {
    if str == [] then t else FeedAll(s, Feed(s, t, str[0]), str[1..])
  }

  lemma {:induction false} FeedConcat(s: Model, t: Term, a: string, b: string)
    ensures FeedAll(s, t, a + b) == FeedAll(s, FeedAll(s, t, a), b)
    decreases |a|
  {
    if a == [] {
      assert a + b == b;
    } else {
      assert (a + b)[1..] == a[1..] + b;
      FeedConcat(s, Feed(s, t, a[0]), a[1..], b);
    }
  }

  lemma FeedOne(s: Model, t: Term, b: char)
    ensures FeedAll(s, t, [b]) == Feed(s, t, b)
  {
    assert [b][1..] == [];
  }

  // ---- numbers

  /** What %d prints. */
  function Decimal(n: nat): (d: string)
    ensures |d| >= 1
  {
    if n < 10 then [('0' as int + n) as char] else Decimal(n / 10) + [('0' as int + n % 10) as char]
  }

  lemma {:induction false} FeedDecimal(s: Model, t: Term, params: seq<Option<int>>, n: nat)
    requires t.mode == Csi(params, None)
    ensures FeedAll(s, t, Decimal(n)) == t.(mode := Csi(params, Some(n)))
  {
    if n < 10 {
      FeedOne(s, t, ('0' as int + n) as char);
    } else {
      var d := ('0' as int + n % 10) as char;
      FeedDecimal(s, t, params, n / 10);
      FeedConcat(s, t, Decimal(n / 10), [d]);
      FeedOne(s, t.(mode := Csi(params, Some(n / 10))), d);
    }
  }

  lemma FeedPrefix(s: Model, t: Term, rest: string)
    requires t.mode == Ground
    ensures FeedAll(s, t, "\U{1b}[" + rest) == FeedAll(s, t.(mode := Csi([], None)), rest)
  {
    FeedConcat(s, t, "\U{1b}[", rest);
    assert "\U{1b}["[1..] == "[";
    FeedOne(s, t.(mode := Escape), '[');
  }

  /** A control sequence with one number. */
  lemma FeedMove(s: Model, t: Term, n: nat, final: char)
    requires t.mode == Ground
    ensures FeedAll(s, t, "\U{1b}[" + (Decimal(n) + [final])) == Feed(s, t.(mode := Csi([], Some(n))), final)
  {
    FeedPrefix(s, t, Decimal(n) + [final]);
    var t1 := t.(mode := Csi([], None));
    FeedConcat(s, t1, Decimal(n), [final]);
    FeedDecimal(s, t1, [], n);
    FeedOne(s, t.(mode := Csi([], Some(n))), final);
  }

  /** A control sequence without a number. */
  lemma FeedShort(s: Model, t: Term, final: char)
    requires t.mode == Ground
    ensures FeedAll(s, t, "\U{1b}[" + [final]) == Feed(s, t.(mode := Csi([], None)), final)
  {
    FeedPrefix(s, t, [final]);
    FeedOne(s, t.(mode := Csi([], None)), final);
  }

  /** The cursor position sequence. */
  lemma FeedPosition(s: Model, t: Term, y: nat, x: nat)
    requires IsModel(s) && t.mode == Ground && 1 <= y <= s.height && 1 <= x <= s.width
    ensures FeedAll(s, t,
      "\U{1b}[" + (Decimal(y) + (";" + (Decimal(x) + "H")))) == t.(row := y, col := x, pending := false)
  {
    var tail := Decimal(x) + "H";
    FeedPrefix(s, t, Decimal(y) + (";" + tail));
    var t1 := t.(mode := Csi([], None));
    FeedConcat(s, t1, Decimal(y), ";" + tail);
    FeedDecimal(s, t1, [], y);
    var t2 := t.(mode := Csi([], Some(y)));
    FeedConcat(s, t2, ";", tail);
    FeedOne(s, t2, ';');
    var t3 := t.(mode := Csi([Some(y)], None));
    assert [] + [Some(y)] == [Some(y)];
    FeedConcat(s, t3, Decimal(x), "H");
    FeedDecimal(s, t3, [Some(y)], x);
    FeedOne(s, t.(mode := Csi([Some(y)], Some(x))), 'H');
  }
}
