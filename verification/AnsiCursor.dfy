/** ansi_sendch and ansi_gotoxy_abs of conio/ansi_cio.c: the cursor is tracked, and moved by the shortest sequence. */
module AnsiCursor {
  import opened Words
  import opened Options
  import opened AnsiTerminal

  /** What the program knows: the tracked cursor, whether the next movement has to be explicit, the current
      attribute, and the screen as it has been drawn, row by row. */
  datatype Con = Con(x: int, y: int, force: bool, doorway: bool, width: int, height: int, attr: byte, vmem: seq<Cell>)

  predicate IsCon(c: Con) {
    c.width >= 1 && c.height >= 1 && 1 <= c.x <= c.width && 1 <= c.y <= c.height && |c.vmem| == c.width * c.height
  }

  /** Where a place on the screen is kept. */
  function Place(c: Con, x: int, y: int): (i: int)
    requires IsCon(c) && 1 <= x <= c.width && 1 <= y <= c.height
    ensures 0 <= i < |c.vmem|
  {
    PlaceInside(c.width, c.height, x, y);
    (y - 1) * c.width + (x - 1)
  }

  lemma PlaceIs(c: Con, x: int, y: int)
    requires IsCon(c) && 1 <= x <= c.width && 1 <= y <= c.height
    ensures Place(c, x, y) == (y - 1) * c.width + (x - 1)
  {
  }

  lemma PlaceInside(w: int, h: int, x: int, y: int)
    requires 1 <= x <= w && 1 <= y <= h
    ensures 0 <= (y - 1) * w + (x - 1) < w * h
  {
    assert 0 <= (y - 1) * w <= (h - 1) * w;
    assert w * h == (h - 1) * w + w;
  }

  /** A space on the background of the current attribute. */
  predicate IsSpace(w: Cell, attr: byte) {
    w.ch == ' ' && w.attr / 0x10 % 8 == attr / 0x10 % 8
  }

  predicate SpaceAt(c: Con, x: int, y: int)
    requires IsCon(c) && OnScreen(c, x, y)
  {
    IsSpace(c.vmem[Place(c, x, y)], c.attr)
  }

  /** Spaces from column x up to, but not including, column end. */
  predicate AllSpaces(c: Con, x: int, end: int, y: int)
    requires IsCon(c) && 1 <= x && end <= c.width + 1 && 1 <= y <= c.height
  {
    forall k | x <= k < end :: SpaceAt(c, k, y)
  }

  // ---- sending a character

  /** A char is signed. */
  predicate IsControl(ch: char) {
    '\0' < ch < ' '
  }

  predicate IsPrefixed(ch: char) {
    ch < ' ' || ch >= 128 as char
  }

  function Shown(ch: char): char {
    if ch == '\0' then ' ' else ch
  }

  function SentChar(c: Con, ch: char): Con
    requires IsCon(c)
  {
    var c := if !c.doorway && IsControl(ch) then c.(force := true) else c;
    if c.x < c.width then c.(x := c.x + 1)
    else if c.y < c.height then c.(force := true, x := 1, y := c.y + 1)
    else c.(force := true)
  }

  function CharBytes(doorway: bool, ch: char): string {
    (if doorway && IsPrefixed(Shown(ch)) then "\0" else "") + [Shown(ch)]
  }

  // ---- moving

  predicate OnScreen(c: Con, x: int, y: int) {
    1 <= x <= c.width && 1 <= y <= c.height
  }

  function Position(x: nat, y: nat): string {
    "\U{1b}[" + (Decimal(y) + (";" + (Decimal(x) + "H")))
  }

  /** A move by n, written without the number if that is one. */
  function By(n: nat, final: char): string {
    if n == 1 then "\U{1b}[" + [final] else "\U{1b}[" + (Decimal(n) + [final])
  }

  function Repeat(ch: char, n: nat): (s: string)
    ensures |s| == n && forall i | 0 <= i < n :: s[i] == ch
  {
    if n == 0 then "" else [ch] + Repeat(ch, n - 1)
  }

  /** From the tracked cursor on, with no explicit movement forced. */
  function MoveBytes(c: Con, x: int, y: int): string
    requires IsCon(c) && OnScreen(c, x, y)
  {
    if x == c.x && y == c.y then ""
    else if x == c.x then
      if y < c.y then By(c.y - y, 'A')
      else if y - c.y < 4 then Repeat('\n', y - c.y)
      else "\U{1b}[" + (Decimal(y - c.y) + "B")
    else if y == c.y then
      if x < c.x then By(c.x - x, 'D')
      else if x - c.x < 5 && AllSpaces(c, c.x, x, y) then Repeat(' ', x - c.x)
      else By(x - c.x, 'C')
    else Position(x, y)
  }

  function GotoBytes(c: Con, x: int, y: int): string
    requires IsCon(c)
  {
    if !OnScreen(c, x, y) then ""
    else if c.force then Position(x, y)
    else if x == 1 && c.x > 1 then "\r" + MoveBytes(c.(x := 1), x, y)
    else MoveBytes(c, x, y)
  }

  function Gone(c: Con, x: int, y: int): Con
    requires IsCon(c)
  {
    if OnScreen(c, x, y) then c.(x := x, y := y, force := false) else c
  }

  /** Spaces will do for a stretch exactly where it looks like spaces in the current attribute. */
  lemma SpacesIff(c: Con, x: int, end: int, y: int)
    requires IsCon(c) && 1 <= x && end <= c.width + 1 && 1 <= y <= c.height
    ensures AllSpaces(c, x, end, y) <==>
      forall k | x <= k < end :: LookSame(c.vmem[Place(c, k, y)], Cell(' ', c.attr))
  {
    hide Place;
    forall k | x <= k < end
      ensures SpaceAt(c, k, y) <==> LookSame(c.vmem[Place(c, k, y)], Cell(' ', c.attr))
    {
    }
  }

  // ---- how long a move is

  lemma {:induction false} DecimalRises(a: nat, b: nat)
    requires a <= b
    ensures |Decimal(a)| <= |Decimal(b)|
    decreases b
  {
    if b >= 10 && a >= 10 { DecimalRises(a / 10, b / 10); }
  }

  lemma DecimalLength(n: nat)
    ensures |Decimal(n)| >= 1 && (n < 10 ==> |Decimal(n)| == 1) && (10 <= n < 100 ==> |Decimal(n)| == 2)
    ensures n >= 10 ==> |Decimal(n)| + 2 < n
    ensures n < 1000 ==> |Decimal(n)| <= 3
  {
    if n >= 10 {
      if n < 100 {
        assert |Decimal(n / 10)| == 1;
      } else if n < 1000 {
        assert |Decimal(n / 10 / 10)| == 1;
      }
      DecimalBelow(n);
    }
  }

  lemma {:induction false} DecimalBelow(n: nat)
    requires n >= 10
    ensures |Decimal(n)| + 2 < n
  {
    if n >= 100 {
      DecimalBelow(n / 10);
    } else {
      assert |Decimal(n / 10)| == 1;
    }
  }

  /** The length of a relative cursor sequence: escape, bracket and letter, and the number unless it is one. */
  function RelativeLength(n: nat): nat {
    if n == 1 then 3 else 3 + |Decimal(n)|
  }

  function Apart(a: int, b: int): nat {
    if a < b then b - a else a - b
  }

  /** In a row or a column a move is never longer than the relative sequence, than the lines down, or than spaces where
      those will do; a return to the first column is one character; and on a usual screen no move is longer than the
      absolute position. */
  lemma MoveShort(c: Con, x: int, y: int)
    requires IsCon(c) && OnScreen(c, x, y) && !c.force
    ensures var n := |GotoBytes(c, x, y)|;
      && (y == c.y && x == c.x ==> n == 0)
      && (y == c.y && x != c.x ==> n <= RelativeLength(Apart(x, c.x)) && (x == 1 ==> n == 1))
      && (y == c.y && x > c.x && AllSpaces(c, c.x, x, y) ==> n <= x - c.x)
      && (y != c.y && (x == c.x || x == 1) ==>
            var home := if x == c.x then 0 else 1;
            n <= home + RelativeLength(Apart(y, c.y)) && (y > c.y ==> n <= home + (y - c.y)))
    ensures c.width <= 1000 && c.height <= 100 ==> |GotoBytes(c, x, y)| <= |Position(x, y)|
  {
    hide AllSpaces, Decimal;
    DecimalLength(Apart(x, c.x));
    DecimalLength(Apart(y, c.y));
    DecimalLength(x);
    DecimalLength(y);
    if y > c.y { DecimalRises(y - c.y, y); }
  }

  /** A character makes the next movement explicit only where the cursor cannot be told. */
  lemma ForcedIff(c: Con, ch: char)
    requires IsCon(c)
    ensures SentChar(c, ch).force <==> c.force || c.x == c.width || (!c.doorway && '\0' < ch < ' ')
  {
  }

  // ---- the cursor and the terminal

  /** The terminal is of the size the program thinks, and in the same mode. */
  ghost predicate Fits(s: Model, c: Con) {
    IsModel(s) && s.width == c.width && s.height == c.height && s.doorway == c.doorway
  }

  /** Unless the next movement is forced, the terminal's cursor is the tracked one. */
  ghost predicate Tracked(s: Model, c: Con, t: Term) {
    && Fits(s, c) && IsCon(c) && t.mode == Ground
    && (!c.force ==> t.row == c.y && t.col == c.x && !t.pending)
  }

  /** Where the program has spaces on the current background, between the cursor and column x, the terminal shows
      them. */
  ghost predicate SpacesShown(c: Con, t: Term, x: int, y: int)
    requires IsCon(c) && OnScreen(c, x, y)
  {
    forall k | c.x <= k < x && SpaceAt(c, k, y) :: BlankAt(t, k, y)
  }

  predicate LookSame(a: Cell, b: Cell) {
    a == b || (a.ch == ' ' && b.ch == ' ' && a.attr / 0x10 % 8 == b.attr / 0x10 % 8)
  }

  ghost predicate Unchanged(t: Term, t': Term) {
    t'.attr == t.attr && forall y, x :: LookSame(t.cells(y, x), t'.cells(y, x))
  }

  lemma FeedPrintable(s: Model, t: Term, ch: char)
    requires t.mode == Ground && ch >= ' '
    ensures Feed(s, t, ch) == Put(s, t, ch)
  {
  }

  /** A character moves the tracked cursor as it moves the terminal's. */
  lemma SentCharTracked(s: Model, c: Con, t: Term, ch: char)
    requires Tracked(s, c, t) && (c.doorway || ch != '\U{1b}')
    ensures Tracked(s, SentChar(c, ch), FeedAll(s, t, CharBytes(c.doorway, ch)))
  {
    var b := Shown(ch);
    if c.doorway && IsPrefixed(b) {
      FeedConcat(s, t, "\0", [b]);
      FeedOne(s, t, '\0');
      FeedOne(s, t.(mode := Literal), b);
    } else {
      assert "" + [b] == [b];
      FeedOne(s, t, b);
    }
  }

  lemma {:induction false} LinesDown(s: Model, t: Term, n: nat)
    requires t.mode == Ground && t.row + n <= s.height && !t.pending
    ensures FeedAll(s, t, Repeat('\n', n)) == t.(row := t.row + n)
    decreases n
  {
    if n > 0 {
      var t1 := Feed(s, t, '\n');
      assert Repeat('\n', n)[1..] == Repeat('\n', n - 1);
      LinesDown(s, t1, n - 1);
    }
  }

  predicate BlankAt(t: Term, x: int, y: int) {
    LookSame(t.cells(y, x), Cell(' ', t.attr))
  }

  /** Spaces written over spaces move the cursor and change nothing that can be seen. */
  lemma {:induction false} SpacesOver(s: Model, t: Term, n: nat)
    requires t.mode == Ground && t.col + n <= s.width && !t.pending
    ensures var t' := FeedAll(s, t, Repeat(' ', n));
      t' == t.(cells := t'.cells, col := t.col + n)
      && ((forall k | t.col <= k < t.col + n :: BlankAt(t, k, t.row)) ==> Unchanged(t, t'))
    decreases n
  {
    if n > 0 {
      var t1 := Feed(s, t, ' ');
      FeedPrintable(s, t, ' ');
      assert Repeat(' ', n)[1..] == Repeat(' ', n - 1);
      SpacesOver(s, t1, n - 1);
      if forall k | t.col <= k < t.col + n :: BlankAt(t, k, t.row) {
        assert BlankAt(t, t.col, t.row);
        forall k | t1.col <= k < t1.col + (n - 1)
          ensures BlankAt(t1, k, t1.row)
        {
          assert BlankAt(t, k, t.row);
        }
      }
    }
  }

  lemma MovedBy(s: Model, t: Term, n: nat)
    requires IsModel(s) && t.mode == Ground && n >= 1
    ensures FeedAll(s, t, By(n, 'A')) == MoveTo(s, t, t.row - n, t.col)
    ensures FeedAll(s, t, By(n, 'C')) == MoveTo(s, t, t.row, t.col + n)
    ensures FeedAll(s, t, By(n, 'D')) == MoveTo(s, t, t.row, t.col - n)
    ensures FeedAll(s, t, "\U{1b}[" + (Decimal(n) + "B")) == MoveTo(s, t, t.row + n, t.col)
  {
    hide Decimal;
    FeedShort(s, t, 'A');
    FeedMove(s, t, n, 'A');
    FeedMove(s, t, n, 'B');
    FeedShort(s, t, 'C');
    FeedMove(s, t, n, 'C');
    FeedShort(s, t, 'D');
    FeedMove(s, t, n, 'D');
  }

  lemma Positioned(s: Model, t: Term, x: int, y: int)
    requires IsModel(s) && t.mode == Ground && 1 <= y <= s.height && 1 <= x <= s.width
    ensures FeedAll(s, t, Position(x, y)) == t.(row := y, col := x, pending := false)
  {
    FeedPosition(s, t, y, x);
  }

  lemma MoveTracked(s: Model, c: Con, t: Term, x: int, y: int)
    requires Tracked(s, c, t) && !c.force && OnScreen(c, x, y)
    ensures var t' := FeedAll(s, t, MoveBytes(c, x, y));
      && t'.row == y && t'.col == x && !t'.pending && t'.mode == Ground && t'.attr == t.attr
      && (SpacesShown(c, t, x, y) || y != c.y || x <= c.x ==> Unchanged(t, t'))
  {
    hide Decimal, By, Position, AllSpaces, SpacesShown, BlankAt;
    if x == c.x && y == c.y {
    } else if x == c.x {
      if y < c.y {
        MovedBy(s, t, c.y - y);
      } else if y - c.y < 4 {
        LinesDown(s, t, y - c.y);
      } else {
        MovedBy(s, t, y - c.y);
      }
    } else if y == c.y {
      if x < c.x {
        MovedBy(s, t, c.x - x);
      } else if x - c.x < 5 && AllSpaces(c, c.x, x, y) {
        if SpacesShown(c, t, x, y) { SpacesThere(c, t, x, y); }
        SpacesOver(s, t, x - c.x);
      } else {
        MovedBy(s, t, x - c.x);
      }
    } else {
      Positioned(s, t, x, y);
    }
  }

  lemma SpacesThere(c: Con, t: Term, x: int, y: int)
    requires IsCon(c) && OnScreen(c, x, y) && AllSpaces(c, c.x, x, y) && SpacesShown(c, t, x, y)
    ensures forall k | c.x <= k < x :: BlankAt(t, k, y)
  {
    forall k | c.x <= k < x
      ensures BlankAt(t, k, y)
    {
      assert SpaceAt(c, k, y);
    }
  }

  /** A move leaves the terminal's cursor at the place asked for, the tracked cursor with it, and changes no cell
      that can be seen, provided, where spaces may be sent, that what is known of them is true; a place outside the
      screen is ignored. */
  lemma GotoTracked(s: Model, c: Con, t: Term, x: int, y: int)
    requires Tracked(s, c, t)
    ensures var t' := FeedAll(s, t, GotoBytes(c, x, y));
      && Tracked(s, Gone(c, x, y), t') && t'.attr == t.attr
      && (!OnScreen(c, x, y) || SpacesShown(c, t, x, y) || c.force || y != c.y || x <= c.x ==> Unchanged(t, t'))
      && (if OnScreen(c, x, y) then t'.row == y && t'.col == x && !t'.pending else t' == t)
  {
    hide Decimal, MoveBytes, SpacesShown, Position;
    if OnScreen(c, x, y) {
      if c.force {
        Positioned(s, t, x, y);
      } else if x == 1 && c.x > 1 {
        FeedConcat(s, t, "\r", MoveBytes(c.(x := 1), x, y));
        FeedOne(s, t, '\r');
        MoveTracked(s, c.(x := 1), t.(col := 1), x, y);
      } else {
        MoveTracked(s, c, t, x, y);
      }
    }
  }

  // ---- runs

  /** What is sent: bytes, or the sequence with which textattr changes the attribute. */
  datatype Chunk = Bytes(str: string) | Attribute(attr: byte)

  function Show(s: Model, t: Term, ch: Chunk): Term {
    match ch
    case Bytes(str) => FeedAll(s, t, str)
    case Attribute(a) => t.(attr := a)
  }

  function ShowAll(s: Model, t: Term, chs: seq<Chunk>): Term
    decreases |chs|
  {
    if chs == [] then t else ShowAll(s, Show(s, t, chs[0]), chs[1..])
  }

  lemma {:induction false} ShowConcat(s: Model, t: Term, a: seq<Chunk>, b: seq<Chunk>)
    ensures ShowAll(s, t, a + b) == ShowAll(s, ShowAll(s, t, a), b)
    decreases |a|
  {
    if a == [] {
      assert a + b == b;
    } else {
      assert (a + b)[1..] == a[1..] + b;
      ShowConcat(s, Show(s, t, a[0]), a[1..], b);
    }
  }

  lemma ShowOne(s: Model, t: Term, ch: Chunk)
    ensures ShowAll(s, t, [ch]) == Show(s, t, ch)
  {
    assert [ch][1..] == [];
  }

  /** A move, a character at the cursor, or a cell as ansi_puttext draws it. */
  datatype Act = Goto(x: int, y: int) | Send(ch: char) | Draw(x: int, y: int, ch: char, attr: byte)

  /** An escape character is only ever sent in doorway mode, and drawing is done on the screen. */
  predicate IsAct(c: Con, a: Act) {
    match a
    case Goto(_, _) => true
    case Send(ch) => c.doorway || ch != '\U{1b}'
    case Draw(x, y, ch, _) => OnScreen(c, x, y)
  }

  /** A zero is drawn as a space, and so is an escape outside doorway mode. */
  function Drawn(c: Con, ch: char): char {
    if ch == '\0' || (ch == '\U{1b}' && !c.doorway) then ' ' else ch
  }

  predicate IsLast(c: Con, x: int, y: int) {
    x >= c.width && y >= c.height
  }

  /** The attribute is sent when it changes. */
  function Colour(c: Con, attr: byte): seq<Chunk> {
    if attr != c.attr then [Attribute(attr)] else []
  }

  function Perform(c: Con, a: Act): (r: (Con, seq<Chunk>))
    requires IsCon(c) && IsAct(c, a)
    ensures IsCon(r.0) && r.0.doorway == c.doorway && r.0.width == c.width && r.0.height == c.height
  {
    match a
    case Goto(x, y) => (Gone(c, x, y), [Bytes(GotoBytes(c, x, y))])
    case Send(ch) => (SentChar(c, ch), [Bytes(CharBytes(c.doorway, ch))])
    case Draw(x, y, ch, attr) =>
      var w := Cell(Drawn(c, ch), attr);
      if c.vmem[Place(c, x, y)] == w then (c, [])
      else
        var c1 := c.(vmem := c.vmem[Place(c, x, y) := w]);
        var c2 := Gone(c1, x, y);
        var moved := [Bytes(GotoBytes(c1, x, y))];
        if IsLast(c, x, y) then (c2, moved)
        else (SentChar(c2.(attr := attr), Drawn(c, ch)),
              moved + Colour(c, attr) + [Bytes(CharBytes(c.doorway, Drawn(c, ch)))])
  }

  ghost predicate AreActs(c: Con, acts: seq<Act>)
    requires IsCon(c)
    decreases |acts|
  {
    acts == [] || (IsAct(c, acts[0]) && AreActs(Perform(c, acts[0]).0, acts[1..]))
  }

  ghost function Performed(c: Con, acts: seq<Act>): (r: (Con, seq<Chunk>))
    requires IsCon(c) && AreActs(c, acts)
    ensures IsCon(r.0)
    decreases |acts|
  {
    if acts == [] then (c, [])
    else
      var (c1, sent) := Perform(c, acts[0]);
      var (c2, more) := Performed(c1, acts[1..]);
      (c2, sent + more)
  }

  lemma PerformTracked(s: Model, c: Con, t: Term, a: Act)
    requires Tracked(s, c, t) && IsAct(c, a)
    ensures Tracked(s, Perform(c, a).0, ShowAll(s, t, Perform(c, a).1))
  {
    hide GotoBytes, CharBytes, SentChar, Unchanged, Place;
    match a
    case Goto(x, y) =>
      GotoTracked(s, c, t, x, y);
      ShowOne(s, t, Bytes(GotoBytes(c, x, y)));
    case Send(ch) =>
      SentCharTracked(s, c, t, ch);
      ShowOne(s, t, Bytes(CharBytes(c.doorway, ch)));
    case Draw(x, y, ch, attr) =>
      if c.vmem[Place(c, x, y)] != Cell(Drawn(c, ch), attr) {
        DrawTracked(s, c, t, x, y, ch, attr);
      }
  }

  lemma DrawTracked(s: Model, c: Con, t: Term, x: int, y: int, ch: char, attr: byte)
    requires Tracked(s, c, t) && OnScreen(c, x, y)
    requires c.vmem[Place(c, x, y)] != Cell(Drawn(c, ch), attr)
    ensures var (c', sent) := Perform(c, Draw(x, y, ch, attr)); Tracked(s, c', ShowAll(s, t, sent))
  {
    hide GotoBytes, CharBytes, SentChar, Unchanged, Place;
    var w := Cell(Drawn(c, ch), attr);
    var c1 := c.(vmem := c.vmem[Place(c, x, y) := w]);
    var moved := [Bytes(GotoBytes(c1, x, y))];
    GotoTracked(s, c1, t, x, y);
    ShowOne(s, t, Bytes(GotoBytes(c1, x, y)));
    if !IsLast(c, x, y) {
      var c2 := Gone(c1, x, y);
      var t2 := ShowAll(s, t, moved);
      DrawShown(s, c, t, moved, attr, CharBytes(c.doorway, Drawn(c, ch)));
      var t3 := if attr != c.attr then t2.(attr := attr) else t2;
      SentCharTracked(s, c2.(attr := attr), t3, Drawn(c, ch));
    }
  }

  lemma DrawShown(s: Model, c: Con, t: Term, moved: seq<Chunk>, attr: byte, str: string)
    ensures var t1 := ShowAll(s, t, moved);
      ShowAll(s, t, moved + Colour(c, attr) + [Bytes(str)]) ==
        FeedAll(s, if attr != c.attr then t1.(attr := attr) else t1, str)
  {
    var t1 := ShowAll(s, t, moved);
    var t2 := if attr != c.attr then t1.(attr := attr) else t1;
    ShowConcat(s, t, moved + Colour(c, attr), [Bytes(str)]);
    ShowConcat(s, t, moved, Colour(c, attr));
    ShowOne(s, t1, Attribute(attr));
    ShowOne(s, t2, Bytes(str));
  }

  /** Over any run, whatever characters are sent, the terminal's cursor is the tracked one unless a move is forced. */
  lemma {:induction false} RunTracked(s: Model, c: Con, t: Term, acts: seq<Act>)
    requires Tracked(s, c, t) && AreActs(c, acts)
    ensures var (c', sent) := Performed(c, acts); Tracked(s, c', ShowAll(s, t, sent))
    decreases |acts|
  {
    hide Perform, Tracked;
    if acts != [] {
      StaysCon(s, c, t);
      PerformTracked(s, c, t, acts[0]);
      var (c1, sent) := Perform(c, acts[0]);
      var t1 := ShowAll(s, t, sent);
      StaysCon(s, c1, t1);
      RunTracked(s, c1, t1, acts[1..]);
      ShowConcat(s, t, sent, Performed(c1, acts[1..]).1);
    }
  }

  lemma StaysCon(s: Model, c: Con, t: Term)
    requires Tracked(s, c, t)
    ensures IsCon(c)
  {
  }

  // ---- the screen

  /** The terminal shows what the program has drawn, the last cell excepted, which is never sent. */
  ghost predicate Mirrors(c: Con, t: Term)
    requires IsCon(c)
    ensures Mirrors(c, t) ==> t.attr == c.attr
  {
    t.attr == c.attr && forall x, y | OnScreen(c, x, y) && !IsLast(c, x, y) :: MirrorsAt(c, t, x, y)
  }

  ghost predicate MirrorsAt(c: Con, t: Term, x: int, y: int)
    requires IsCon(c) && OnScreen(c, x, y)
  {
    LookSame(c.vmem[Place(c, x, y)], t.cells(y, x))
  }

  /** The spaces that a move to column x may write over come before x: drawing there first changes none of them. */
  lemma MirrorSpaces(c: Con, c1: Con, t: Term, x: int, y: int)
    requires IsCon(c) && OnScreen(c, x, y) && Mirrors(c, t)
    requires |c1.vmem| == |c.vmem| && c1 == c.(vmem := c.vmem[Place(c, x, y) := c1.vmem[Place(c, x, y)]])
    ensures SpacesShown(c1, t, x, y)
  {
    forall k | c.x <= k < x && SpaceAt(c1, k, y)
      ensures BlankAt(t, k, y)
    {
      PlaceDistinct(c, x, y, k, y);
      assert MirrorsAt(c, t, k, y);
    }
  }

  /** A character goes into the cell at the cursor. */
  lemma SentCharDraws(s: Model, c: Con, t: Term, ch: char)
    requires Tracked(s, c, t) && !c.force && !IsLast(c, c.x, c.y) && ch != '\0' && (c.doorway || ch >= ' ')
    ensures var t' := FeedAll(s, t, CharBytes(c.doorway, ch));
      t'.attr == t.attr && forall y, x ::
        t'.cells(y, x) == if y == c.y && x == c.x then Cell(ch, t.attr) else t.cells(y, x)
  {
    if c.doorway && IsPrefixed(ch) {
      FeedConcat(s, t, "\0", [ch]);
      FeedOne(s, t, '\0');
      FeedOne(s, t.(mode := Literal), ch);
    } else {
      assert "" + [ch] == [ch];
      FeedOne(s, t, ch);
    }
  }

  lemma MirrorUnchanged(c: Con, c': Con, t: Term, t': Term)
    requires IsCon(c) && Mirrors(c, t) && Unchanged(t, t')
    requires IsCon(c') && c'.width == c.width && c'.height == c.height && c'.vmem == c.vmem && c'.attr == c.attr
    ensures Mirrors(c', t')
  {
    forall x, y | OnScreen(c', x, y) && !IsLast(c', x, y)
      ensures MirrorsAt(c', t', x, y)
    {
      assert MirrorsAt(c, t, x, y);
    }
  }

  /** The act draws a character that is shown, or only moves. */
  predicate IsShown(c: Con, a: Act) {
    match a
    case Goto(_, _) => true
    case Send(_) => false
    case Draw(_, _, ch, _) => c.doorway || !IsControl(Drawn(c, ch))
  }

  lemma PlaceDistinct(c: Con, x: int, y: int, x': int, y': int)
    requires IsCon(c) && OnScreen(c, x, y) && OnScreen(c, x', y') && (x != x' || y != y')
    ensures Place(c, x, y) != Place(c, x', y')
  {
    hide Place;
    PlaceIs(c, x, y);
    PlaceIs(c, x', y');
    if y < y' {
      RowsApart(c.width, x, y, x', y');
    } else if y' < y {
      RowsApart(c.width, x', y', x, y);
    }
  }

  lemma RowsApart(w: int, x: int, y: int, x': int, y': int)
    requires 1 <= x <= w && 1 <= x' && 1 <= y < y'
    ensures (y - 1) * w + (x - 1) < (y' - 1) * w + (x' - 1)
  {
    var d := y' - 1 - y;
    assert (y' - 1) * w == (y - 1) * w + w + d * w;
    assert d * w >= 0;
  }

  lemma DrawMirrors(s: Model, c: Con, t: Term, x: int, y: int, ch: char, attr: byte)
    requires Tracked(s, c, t) && Mirrors(c, t) && OnScreen(c, x, y)
    requires (c.doorway || !IsControl(Drawn(c, ch))) && c.vmem[Place(c, x, y)] != Cell(Drawn(c, ch), attr)
    ensures var (c', sent) := Perform(c, Draw(x, y, ch, attr)); Mirrors(c', ShowAll(s, t, sent))
  {
    hide GotoBytes, CharBytes, Mirrors, SpacesShown, Place;
    var w := Cell(Drawn(c, ch), attr);
    var c1 := c.(vmem := c.vmem[Place(c, x, y) := w]);
    var c2 := Gone(c1, x, y);
    var moved := [Bytes(GotoBytes(c1, x, y))];
    GotoTracked(s, c1, t, x, y);
    MirrorSpaces(c, c1, t, x, y);
    ShowOne(s, t, moved[0]);
    var t1 := ShowAll(s, t, moved);
    if IsLast(c, x, y) {
      DrawnAt(c, c2, t, t1, x, y, w);
    } else {
      DrawShown(s, c, t, moved, attr, CharBytes(c.doorway, Drawn(c, ch)));
      var t2 := if attr != c.attr then t1.(attr := attr) else t1;
      SentCharDraws(s, c2.(attr := attr), t2, Drawn(c, ch));
      DrawnAt(c, SentChar(c2.(attr := attr), Drawn(c, ch)), t, FeedAll(s, t2, CharBytes(c.doorway, Drawn(c, ch))), x,
        y, w);
    }
  }

  lemma DrawnAt(c: Con, c': Con, t: Term, t': Term, x: int, y: int, w: Cell)
    requires IsCon(c) && IsCon(c') && OnScreen(c, x, y) && Mirrors(c, t)
    requires c'.width == c.width && c'.height == c.height && c'.vmem == c.vmem[Place(c, x, y) := w] &&
      t'.attr == c'.attr
    requires !IsLast(c, x, y) ==> t'.cells(y, x) == w
    requires forall l, k :: !(k == x && l == y) ==> LookSame(t.cells(l, k), t'.cells(l, k))
    ensures Mirrors(c', t')
  {
    forall k, l | OnScreen(c', k, l) && !IsLast(c', k, l)
      ensures MirrorsAt(c', t', k, l)
    {
      if k != x || l != y {
        PlaceDistinct(c, x, y, k, l);
        assert MirrorsAt(c, t, k, l);
      }
    }
  }

  lemma PerformMirrors(s: Model, c: Con, t: Term, a: Act)
    requires Tracked(s, c, t) && Mirrors(c, t) && IsAct(c, a) && IsShown(c, a)
    ensures Mirrors(Perform(c, a).0, ShowAll(s, t, Perform(c, a).1))
  {
    hide GotoBytes, CharBytes, Mirrors, Place;
    match a
    case Goto(x, y) =>
      GotoTracked(s, c, t, x, y);
      ShowOne(s, t, Bytes(GotoBytes(c, x, y)));
      if OnScreen(c, x, y) { MirrorSpaces(c, c, t, x, y); }
      MirrorUnchanged(c, Gone(c, x, y), t, FeedAll(s, t, GotoBytes(c, x, y)));
    case Draw(x, y, ch, attr) =>
      if c.vmem[Place(c, x, y)] != Cell(Drawn(c, ch), attr) {
        DrawMirrors(s, c, t, x, y, ch, attr);
      }
  }

  ghost predicate AreShown(c: Con, acts: seq<Act>)
    requires IsCon(c) && AreActs(c, acts)
    decreases |acts|
  {
    acts == [] || (IsShown(c, acts[0]) && AreShown(Perform(c, acts[0]).0, acts[1..]))
  }

  /** Over any run of moves and drawing, the terminal goes on showing what the program has drawn. */
  lemma {:induction false} RunMirrors(s: Model, c: Con, t: Term, acts: seq<Act>)
    requires Tracked(s, c, t) && Mirrors(c, t) && AreActs(c, acts) && AreShown(c, acts)
    ensures var (c', sent) := Performed(c, acts); Mirrors(c', ShowAll(s, t, sent))
    decreases |acts|
  {
    hide Perform, Tracked, Mirrors;
    if acts != [] {
      StaysCon(s, c, t);
      PerformTracked(s, c, t, acts[0]);
      PerformMirrors(s, c, t, acts[0]);
      var (c1, sent) := Perform(c, acts[0]);
      var t1 := ShowAll(s, t, sent);
      RunMirrors(s, c1, t1, acts[1..]);
      ShowConcat(s, t, sent, Performed(c1, acts[1..]).1);
    }
  }

  // ---- the program's own state

  /** The static variables of the program; sent is what has gone to the terminal. */
  class Console {
    var ansix: int
    var ansiy: int
    var forceMove: bool
    const doorway: bool
    const width: int
    const height: int
    var attribute: byte
    var ansivmem: array<Cell>
    var sent: seq<Chunk>

    ghost function View(): Con
      reads this, ansivmem
    {
      Con(ansix, ansiy, forceMove, doorway, width, height, attribute, ansivmem[..])
    }

    ghost predicate Valid()
      reads this, ansivmem
    {
      IsCon(View())
    }

    method SendStr(str: string)
      modifies this`sent
      ensures sent == old(sent) + [Bytes(str)]
    {
      sent := sent + [Bytes(str)];
    }

    /** ansi_sendch */
    method SendCh(ch0: char)
      requires Valid() && (doorway || ch0 != '\U{1b}')
      modifies this`ansix, this`ansiy, this`forceMove, this`sent
      ensures Valid() && View() == Perform(old(View()), Send(ch0)).0 && ansivmem[..] == old(ansivmem[..])
      ensures HasSent(old(sent), sent, Perform(old(View()), Send(ch0)).1)
    {
      hide HasSent;
      HasSentAll(sent, [Bytes(CharBytes(doorway, ch0))]);
      var ch := ch0;
      if ch == '\0' {
        ch := ' ';
      }
      ansix := ansix + 1;
      if ansix > width {
        forceMove := true;
        ansix := 1;
        ansiy := ansiy + 1;
        if ansiy > height {
          ansix := width;
          ansiy := height;
        }
      }
      SendStr((if doorway && IsPrefixed(ch) then "\0" else "") + [ch]);
      if IsControl(ch) && !doorway {
        forceMove := true;
      }
    }

    /** ansi_gotoxy_abs */
    method GotoXY(x: int, y: int)
      requires Valid()
      modifies this`ansix, this`ansiy, this`forceMove, this`sent
      ensures Valid() && View() == Perform(old(View()), Goto(x, y)).0 && ansivmem[..] == old(ansivmem[..])
      ensures HasSent(old(sent), sent, Perform(old(View()), Goto(x, y)).1)
    {
      hide Decimal, Place, IsSpace, Joined, MoveBytes, Sends, HasSent;
      ghost var c := View();
      GotoAbs(x, y);
      JoinedShown(old(sent), sent, GotoBytes(c, x, y));
    }

    method GotoAbs(x: int, y: int)
      requires Valid()
      modifies this`ansix, this`ansiy, this`forceMove, this`sent
      ensures Valid() && View() == Gone(old(View()), x, y) && ansivmem[..] == old(ansivmem[..])
      ensures Sends(old(sent), sent, GotoBytes(old(View()), x, y))
    {
      hide Decimal, Place, IsSpace, Joined, MoveBytes, Sends;
      ghost var c := View();
      if x < 1 || x > width || y < 1 || y > height {
        SentNothing(sent);
        return;
      }
      if forceMove {
        SendStr("\U{1b}[" + (Decimal(y) + (";" + (Decimal(x) + "H"))));
        SentOne(old(sent), Position(x, y));
        forceMove := false;
        ansiy := y;
        ansix := x;
        return;
      }
      if x == 1 && ansix > 1 {
        SendStr("\r");
        SentOne(old(sent), "\r");
        ansix := 1;
      }
      ghost var mid := sent;
      MoveXY(x, y);
      if x == 1 && c.x > 1 { SentTwo(old(sent), mid, sent, "\r", MoveBytes(c.(x := 1), x, y)); }
    }

    /** The rest of ansi_gotoxy_abs, with no movement forced and a return sent if it is of use. */
    method MoveXY(x: int, y: int)
      requires Valid() && !forceMove && OnScreen(View(), x, y)
      modifies this`ansix, this`ansiy, this`sent
      ensures Valid() && View() == Gone(old(View()), x, y)
      ensures Sends(old(sent), sent, MoveBytes(old(View()), x, y))
    {
      hide Decimal, Place, IsSpace, Joined;
      ghost var c := View();
      SentOne(old(sent), MoveBytes(c, x, y));
      if x == ansix && y == ansiy {
        SentNothing(sent);
        return;
      }
      if x == ansix {
        if y < ansiy {
          SendStr(if y == ansiy - 1 then "\U{1b}[" + "A" else "\U{1b}[" + (Decimal(ansiy - y) + "A"));
        } else if y - ansiy < 4 {
          assert "\n\n\n"[..y - ansiy] == Repeat('\n', y - ansiy);
          SendStr("\n\n\n"[..y - ansiy]);
        } else {
          SendStr("\U{1b}[" + (Decimal(y - ansiy) + "B"));
        }
        ansiy := y;
        return;
      }
      if y == ansiy {
        if x < ansix {
          SendStr(if x == ansix - 1 then "\U{1b}[" + "D" else "\U{1b}[" + (Decimal(ansix - x) + "D"));
          ansix := x;
          return;
        }
        if x - ansix < 5 {
          var j := SpacesAhead(x);
          if j {
            assert "    "[..x - ansix] == Repeat(' ', x - ansix);
            SendStr("    "[..x - ansix]);
            ansix := x;
            return;
          }
        }
        SendStr(if x == ansix + 1 then "\U{1b}[" + "C" else "\U{1b}[" + (Decimal(x - ansix) + "C"));
        ansix := x;
        return;
      }
      SendStr("\U{1b}[" + (Decimal(y) + (";" + (Decimal(x) + "H"))));
      ansiy := y;
      ansix := x;
    }

    /** The drawing of one cell in the loop of ansi_puttext. */
    method DrawCell(x: int, y: int, ch0: char, attr: byte)
      requires Valid() && IsAct(View(), Draw(x, y, ch0, attr))
      modifies this`ansix, this`ansiy, this`forceMove, this`attribute, this`sent, ansivmem
      ensures Valid() && View() == Perform(old(View()), Draw(x, y, ch0, attr)).0
      ensures HasSent(old(sent), sent, Perform(old(View()), Draw(x, y, ch0, attr)).1)
    {
      hide GotoBytes, CharBytes, SentChar, Gone, Perform, HasSent, Place;
      ghost var c := View();
      DrawPerforms(c, x, y, ch0, attr);
      var ch := if ch0 == '\0' || (ch0 == '\U{1b}' && !doorway) then ' ' else ch0;
      PlaceInside(width, height, x, y);
      var i := (y - 1) * width + (x - 1);
      PlaceIs(c, x, y);
      HasSentAll(sent, []);
      if ansivmem[i] == Cell(ch, attr) {
        return;
      }
      ansivmem[i] := Cell(ch, attr);
      ghost var before, c1 := sent, View();
      GotoXY(x, y);
      if y >= height && x >= width {
        return;
      }
      ghost var moved, c2 := sent, View();
      SendCell(ch, attr);
      ghost var a, b := Colour(c, attr), Perform(c2.(attr := attr), Send(ch)).1;
      HasSentTwo(before, moved, sent, Perform(c1, Goto(x, y)).1, a + b);
      assert Perform(c1, Goto(x, y)).1 + (a + b) == Perform(c1, Goto(x, y)).1 + a + b;
    }

    /** The attribute, where it changes, and the character. */
    method SendCell(ch: char, attr: byte)
      requires Valid() && (doorway || ch != '\U{1b}')
      modifies this`ansix, this`ansiy, this`forceMove, this`attribute, this`sent
      ensures Valid() && ansivmem[..] == old(ansivmem[..])
      ensures View() == Perform(old(View()).(attr := attr), Send(ch)).0
      ensures HasSent(old(sent), sent, Colour(old(View()), attr) + Perform(old(View()).(attr := attr), Send(ch)).1)
    {
      hide HasSent, Perform;
      ghost var c := View();
      if attribute != attr {
        attribute := attr;
        sent := sent + [Attribute(attr)];
      }
      HasSentAll(old(sent), Colour(c, attr));
      assert sent == old(sent) + Colour(c, attr);
      ghost var coloured := sent;
      SendCh(ch);
      HasSentTwo(old(sent), coloured, sent, Colour(c, attr), Perform(c.(attr := attr), Send(ch)).1);
    }

    /** The loop over the cells that a move to the right would pass. */
    method SpacesAhead(x: int) returns (j: bool)
      requires Valid() && ansix < x <= width
      ensures j == AllSpaces(View(), ansix, x, ansiy)
    {
      j := true;
      var i := 0;
      while i < x - ansix
        invariant 0 <= i <= x - ansix && j
        invariant forall k | ansix <= k < ansix + i :: SpaceAt(View(), k, ansiy)
      {
        PlaceInside(width, height, ansix + i, ansiy);
        var w := ansivmem[(ansiy - 1) * width + ansix - 1 + i];
        assert w == View().vmem[Place(View(), ansix + i, ansiy)];
        if w.ch != ' ' || w.attr / 0x10 % 8 != attribute / 0x10 % 8 {
          assert !SpaceAt(View(), ansix + i, ansiy);
          j := false;
          break;
        }
        i := i + 1;
      }
    }
  }

  /** The bytes have been sent, in one or more pieces. */
  predicate Sends(before: seq<Chunk>, after: seq<Chunk>, str: string) {
    before <= after && Joined(after[|before|..]) == Some(str)
  }

  /** Pieces put together, if they are all bytes. */
  function Joined(chs: seq<Chunk>): Option<string> {
    if chs == [] then Some("")
    else if chs[0].Attribute? then None
    else
      match Joined(chs[1..])
      case None => None
      case Some(rest) => Some(chs[0].str + rest)
  }

  lemma SentNothing(before: seq<Chunk>)
    ensures Sends(before, before, "")
  {
    assert before[|before|..] == [];
  }

  lemma SentOne(before: seq<Chunk>, str: string)
    ensures Sends(before, before + [Bytes(str)], str)
  {
    assert (before + [Bytes(str)])[|before|..] == [Bytes(str)];
    JoinedOne(str);
  }

  lemma SentTwo(before: seq<Chunk>, mid: seq<Chunk>, after: seq<Chunk>, a: string, b: string)
    requires Sends(before, mid, a) && Sends(mid, after, b)
    ensures Sends(before, after, a + b)
  {
    JoinedConcat(mid[|before|..], after[|mid|..]);
    assert after[|before|..] == mid[|before|..] + after[|mid|..];
  }

  lemma {:induction false} JoinedConcat(a: seq<Chunk>, b: seq<Chunk>)
    requires Joined(a).Some? && Joined(b).Some?
    ensures Joined(a + b) == Some(Joined(a).value + Joined(b).value)
  {
    if a == [] {
      assert a + b == b && "" + Joined(b).value == Joined(b).value;
    } else {
      JoinedConcat(a[1..], b);
      assert (a + b)[1..] == a[1..] + b;
      assert a[0].str + (Joined(a[1..]).value + Joined(b).value) == a[0].str + Joined(a[1..]).value + Joined(b).value;
    }
  }

  lemma JoinedOne(str: string)
    ensures Joined([Bytes(str)]) == Some(str)
  {
    assert [Bytes(str)][1..] == [] && str + "" == str;
  }

  /** What has been sent in between has the effect of the given chunks on any terminal. */
  ghost predicate HasSent(before: seq<Chunk>, after: seq<Chunk>, chs: seq<Chunk>) {
    before <= after && forall s, t :: ShowAll(s, t, after[|before|..]) == ShowAll(s, t, chs)
  }

  /** Drawing a changed cell is a move to it, a change of colour and the sending of its character. */
  lemma DrawPerforms(c: Con, x: int, y: int, ch: char, attr: byte)
    requires IsCon(c) && IsAct(c, Draw(x, y, ch, attr))
    ensures var w, i := Cell(Drawn(c, ch), attr), Place(c, x, y);
      0 <= i < |c.vmem| &&
      if c.vmem[i] == w then Perform(c, Draw(x, y, ch, attr)) == (c, [])
      else
        var c1 := c.(vmem := c.vmem[i := w]);
        IsCon(c1) && IsAct(c1, Goto(x, y)) &&
        var (c2, moved) := Perform(c1, Goto(x, y));
        if IsLast(c, x, y) then Perform(c, Draw(x, y, ch, attr)) == (c2, moved)
        else
          IsAct(c2.(attr := attr), Send(Drawn(c, ch))) &&
          var (c3, shown) := Perform(c2.(attr := attr), Send(Drawn(c, ch)));
          Perform(c, Draw(x, y, ch, attr)) == (c3, moved + Colour(c, attr) + shown)
  {
    hide GotoBytes, CharBytes, SentChar, Colour, Gone;
  }

  /** What is on the screen already is not sent again; of a cell that is, the attribute only where it changes. */
  lemma DrawSparing(c: Con, x: int, y: int, ch: char, attr: byte)
    requires IsCon(c) && IsAct(c, Draw(x, y, ch, attr))
    ensures var sent, w := Perform(c, Draw(x, y, ch, attr)).1, Cell(Drawn(c, ch), attr);
      && (c.vmem[Place(c, x, y)] == w <==> sent == [])
      && (forall k | 0 <= k < |sent| && sent[k].Attribute? :: attr != c.attr && sent[k] == Attribute(attr))
      && |sent| <= 3
  {
    hide GotoBytes, CharBytes, SentChar, Gone;
  }

  lemma HasSentAll(before: seq<Chunk>, chs: seq<Chunk>)
    ensures HasSent(before, before + chs, chs) && (chs == [] ==> before + chs == before)
  {
    assert (before + chs)[|before|..] == chs;
  }

  lemma HasSentTwo(before: seq<Chunk>, mid: seq<Chunk>, after: seq<Chunk>, a: seq<Chunk>, b: seq<Chunk>)
    requires HasSent(before, mid, a) && HasSent(mid, after, b)
    ensures HasSent(before, after, a + b)
  {
    forall s, t
      ensures ShowAll(s, t, after[|before|..]) == ShowAll(s, t, a + b)
    {
      assert after[|before|..] == mid[|before|..] + after[|mid|..];
      ShowConcat(s, t, mid[|before|..], after[|mid|..]);
      ShowConcat(s, t, a, b);
    }
  }

  lemma JoinedShown(before: seq<Chunk>, after: seq<Chunk>, str: string)
    requires Sends(before, after, str)
    ensures HasSent(before, after, [Bytes(str)])
  {
    forall s, t
      ensures ShowAll(s, t, after[|before|..]) == ShowAll(s, t, [Bytes(str)])
    {
      JoinedShows(s, t, after[|before|..]);
      ShowOne(s, t, Bytes(str));
    }
  }

  lemma {:induction false} JoinedShows(s: Model, t: Term, chs: seq<Chunk>)
    requires Joined(chs).Some?
    ensures ShowAll(s, t, chs) == FeedAll(s, t, Joined(chs).value)
    decreases |chs|
  {
    if chs != [] {
      FeedConcat(s, t, chs[0].str, Joined(chs[1..]).value);
      JoinedShows(s, Show(s, t, chs[0]), chs[1..]);
    }
  }

  /** Each method of the console keeps the terminal in step: the cursor, and with shown characters also the screen. */
  lemma SessionTracked(s: Model, c: Con, t: Term, before: seq<Chunk>, after: seq<Chunk>, a: Act)
    requires Tracked(s, c, ShowAll(s, t, before)) && IsAct(c, a) && HasSent(before, after, Perform(c, a).1)
    ensures Tracked(s, Perform(c, a).0, ShowAll(s, t, after))
    ensures IsShown(c, a) && Mirrors(c, ShowAll(s, t, before)) ==> Mirrors(Perform(c, a).0, ShowAll(s, t, after))
  {
    hide Tracked, Mirrors, Perform, IsShown;
    var t1 := ShowAll(s, t, before);
    StaysCon(s, c, t1);
    var chs := Perform(c, a).1;
    PerformTracked(s, c, t1, a);
    if IsShown(c, a) && Mirrors(c, t1) { PerformMirrors(s, c, t1, a); }
    assert after == before + after[|before|..];
    ShowConcat(s, t, before, after[|before|..]);
  }
}
