/** The screen-filling animation of examples/oblivion.c: two cursors sweep the terminal from
    opposite corners, one step each in turn, until they have crossed inside a row. */
module Oblivion {

  const MESSAGE: string := "  no more computer  "

  /** A terminal as the animation uses it: what has been printed where since it was cleared, and
      the cursor that the next character lands on. Rows and columns count from 1. */
  class Terminal {
    const rows: nat
    const cols: nat
    var cells: map<(int, int), char>
    var row: int
    var col: int

    ghost predicate Valid()
      reads this
    {
      1 <= row <= rows && 1 <= col <= cols
    }

    /** The character shown at row y, column x. */
    ghost function At(y: int, x: int): char
      reads this
    {
      if (y, x) in cells then cells[(y, x)] else ' '
    }

    /** The erase-display escape. */
    method Clear()
      modifies this`cells
      ensures forall y, x :: At(y, x) == ' '
    {
      cells := map[];
    }

    /** The cursor-position escape: coordinates outside the screen are moved to its nearest edge,
        so column 0 means column 1. */
    method SetCursor(y: int, x: int)
      requires Valid()
      modifies this`row, this`col
      ensures Valid()
      ensures row == Clamp(y, rows) && col == Clamp(x, cols)
    {
      row := Clamp(y, rows);
      col := Clamp(x, cols);
    }

    /** Prints one character at the cursor. In the last column the cursor stays (deferred wrap). */
    method Put(c: char)
      requires Valid()
      modifies this`col, this`cells
      ensures Valid()
      ensures At(old(row), old(col)) == c
      ensures forall y, x | y != old(row) || x != old(col) :: At(y, x) == old(At(y, x))
    {
      cells := cells[(row, col) := c];
      if col < cols {
        col := col + 1;
      }
    }
  }

  function Clamp(v: int, limit: nat): int {
    if v < 1 then 1 else if v > limit then limit else v
  }

  // ----- the two fronts as a state machine -----

  /** The loop variables: forward cursor (x1, y1), backward cursor (x2, y2), and the turn i. */
  datatype Fronts = Fronts(x1: int, y1: int, x2: int, y2: int, i: nat)

  function Start(rows: nat, cols: nat): Fronts {
    Fronts(1, 1, cols, rows, 0)
  }

  /** The negated loop guard: both cursors in one row, the backward one left of the forward one. */
  predicate Crossed(f: Fronts) {
    f.y1 == f.y2 && f.x2 - f.x1 < 0
  }

  /** One turn of the loop. The forward row holds cols positions, the backward one cols + 1. */
  function Advance(cols: nat, f: Fronts): Fronts {
    if f.i % 2 == 0 then
      if f.x1 == cols
      then f.(x1 := 1, y1 := f.y1 + 1, i := f.i + 1)
      else f.(x1 := f.x1 + 1, i := f.i + 1)
    else
      if f.x2 == 0
      then f.(x2 := cols, y2 := f.y2 - 1, i := f.i + 1)
      else f.(x2 := f.x2 - 1, i := f.i + 1)
  }

  /** The loop variables after n turns, whether or not the guard would have let it go on. */
  function After(rows: nat, cols: nat, n: nat): Fronts {
    if n == 0 then Start(rows, cols) else Advance(cols, After(rows, cols, n - 1))
  }

  /** The cells each front has passed, tied to the number of turns it has had. */
  ghost predicate Swept(rows: nat, cols: nat, f: Fronts) {
    && 1 <= f.x1 <= cols && 1 <= f.y1
    && 0 <= f.x2 <= cols && f.y2 <= rows
    && (f.y1 - 1) * cols + f.x1 - 1 == (f.i + 1) / 2
    && (rows - f.y2) * (cols + 1) + cols - f.x2 == f.i / 2
  }

  lemma {:induction false} AdvanceSweeps(rows: nat, cols: nat, f: Fronts)
    requires 1 <= cols && Swept(rows, cols, f)
    ensures Swept(rows, cols, Advance(cols, f))
  {
    var g := Advance(cols, f);
    if f.i % 2 == 0 {
      assert (g.i + 1) / 2 == (f.i + 1) / 2 + 1 && g.i / 2 == f.i / 2;
      if f.x1 == cols {
        assert (g.y1 - 1) * cols == (f.y1 - 1) * cols + cols;
      }
    } else {
      assert (g.i + 1) / 2 == (f.i + 1) / 2 && g.i / 2 == f.i / 2 + 1;
      if f.x2 == 0 {
        assert (rows - g.y2) * (cols + 1) == (rows - f.y2) * (cols + 1) + (cols + 1);
      }
    }
  }

  lemma {:induction false} AfterSweeps(rows: nat, cols: nat, n: nat)
    requires 1 <= rows && 1 <= cols
    ensures Swept(rows, cols, After(rows, cols, n)) && After(rows, cols, n).i == n
  {
    if n == 0 {
    } else {
      AfterSweeps(rows, cols, n - 1);
      AdvanceSweeps(rows, cols, After(rows, cols, n - 1));
    }
  }

  /** The screen sizes on which the fronts meet head-on at a row boundary and pass each other. */
  predicate PassingSize(rows: nat, cols: nat) {
    (rows + 2) % (2 * cols + 1) == 0
  }

  /** The fronts stand on the last column of one row, with the forward cursor about to leave it. */
  predicate HeadOn(cols: nat, f: Fronts) {
    f.i % 2 == 0 && f.y1 == f.y2 && f.x1 == cols && f.x2 == cols
  }

  /** A head-on meeting only happens on a passing size ... */
  lemma HeadOnNeedsPassingSize(rows: nat, cols: nat, f: Fronts)
    requires 1 <= cols && Swept(rows, cols, f) && HeadOn(cols, f)
    ensures PassingSize(rows, cols)
  {
    var y := f.y1;
    assert (y - 1) * cols + cols - 1 == (rows - y) * (cols + 1);
    assert (y - 1) * cols + cols == y * cols;
    assert (rows - y) * (cols + 1) == rows * cols + rows - y * cols - y;
    var k := 2 * y - rows;
    assert k * (2 * cols + 1) == 2 * (2 * (y * cols)) + 2 * y - 2 * (rows * cols) - rows;
    assert k * (2 * cols + 1) == rows + 2;
    MultipleHasNoRemainder(k, 2 * cols + 1, rows + 2);
  }

  /** A nonzero multiple of d is at least d away from zero. */
  lemma MultipleApart(k: int, d: int)
    requires d > 0
    ensures k == 0 || k * d >= d || k * d <= -d
  {
  }

  lemma MultipleHasNoRemainder(k: int, d: int, n: int)
    requires d > 0 && k * d == n
    ensures n % d == 0
  {
    var q, r := n / d, n % d;
    assert n == q * d + r;
    assert (k - q) * d == r;
    MultipleApart(k - q, d);
  }

  /** The row of the meeting on a passing size, and the products its place comes from. */
  lemma MeetingRow(rows: nat, cols: nat) returns (y: nat)
    requires 1 <= rows && 1 <= cols && PassingSize(rows, cols)
    ensures 1 <= y <= rows && y * cols >= 1
    ensures (y - 1) * cols + cols - 1 == y * cols - 1
    ensures (rows - y) * (cols + 1) == y * cols - 1
  {
    var k := (rows + 2) / (2 * cols + 1);
    assert k * (2 * cols + 1) == rows + 2;
    assert k >= 1;
    var kc := k * cols;
    assert rows + 2 == 2 * kc + k by {
      assert k * (2 * cols + 1) == 2 * kc + k;
    }
    assert kc >= k by { MulAtLeast(k, cols); }
    y := kc + k - 1;
    assert rows - y == kc - 1;
    assert (rows - y) * (cols + 1) == kc * cols + kc - cols - 1 by {
      assert (kc - 1) * (cols + 1) == kc * cols + kc - cols - 1;
    }
    assert y * cols == kc * cols + kc - cols by {
      assert (kc + k - 1) * cols == kc * cols + k * cols - cols;
    }
    MulAtLeast(cols, y);
  }

  /** ... and on a passing size it happens, after turn n in row y. */
  lemma {:induction false} PassingSizeMeetsHeadOn(rows: nat, cols: nat) returns (n: nat, y: nat)
    requires 1 <= rows && 1 <= cols && PassingSize(rows, cols)
    ensures 1 <= y <= rows && n % 2 == 0
    ensures After(rows, cols, n) == Fronts(cols, y, cols, y, n)
  {
    y := MeetingRow(rows, cols);
    var steps := y * cols - 1;
    n := 2 * steps;
    var f := After(rows, cols, n);
    AfterSweeps(rows, cols, n);
    assert (n + 1) / 2 == steps && n / 2 == steps;
    QuotientIsUnique(cols, f.y1 - 1, f.x1 - 1, y - 1, cols - 1);
    QuotientIsUnique(cols + 1, rows - f.y2, cols - f.x2, rows - y, 0);
  }

  lemma MulAtLeast(a: nat, b: nat)
    requires b >= 1
    ensures a * b >= a
  {
  }

  lemma QuotientIsUnique(d: int, q: int, r: int, q': int, r': int)
    requires 0 <= r < d && 0 <= r' < d
    requires q * d + r == q' * d + r'
    ensures q == q' && r == r'
  {
    assert (q - q') * d == r' - r;
    MultipleApart(q - q', d);
  }

  // ----- termination: exactly when the size is not a passing one -----

  /** While the loop runs on any other size, the forward front never gets a row ahead. */
  lemma {:induction false} FrontsNeverPass(rows: nat, cols: nat, f: Fronts)
    requires 1 <= cols && Swept(rows, cols, f) && !PassingSize(rows, cols)
    requires f.y1 <= f.y2 && !Crossed(f)
    ensures Advance(cols, f).y1 <= Advance(cols, f).y2
  {
    if f.y1 == f.y2 && f.i % 2 == 0 && f.x1 == cols {
      HeadOnNeedsPassingSize(rows, cols, f);
    }
  }

  /** Before the fronts pass, neither can have had more turns than the screen has positions. */
  lemma TurnsBounded(rows: nat, cols: nat, f: Fronts)
    requires 1 <= cols && Swept(rows, cols, f) && f.y1 <= f.y2
    ensures f.i <= rows * (cols + 1) + cols
  {
    assert (f.y1 - 1) * cols <= (f.y1 - 1) * (cols + 1);
    assert (f.y1 - 1) * (cols + 1) <= (f.y2 - 1) * (cols + 1) by {
      assert (f.y2 - f.y1) * (cols + 1) >= 0;
    }
    assert (f.y2 - 1) * (cols + 1) + (rows - f.y2) * (cols + 1) == rows * (cols + 1) - (cols + 1);
  }

  /** Either the fronts have crossed within n turns, or they are still in order after n turns. */
  lemma {:induction false} CrossedOrInOrder(rows: nat, cols: nat, n: nat)
    requires 1 <= rows && 1 <= cols && !PassingSize(rows, cols)
    ensures (exists k: nat :: k <= n && Crossed(After(rows, cols, k)))
            || After(rows, cols, n).y1 <= After(rows, cols, n).y2
  {
    if n == 0 {
    } else {
      CrossedOrInOrder(rows, cols, n - 1);
      var f := After(rows, cols, n - 1);
      AfterSweeps(rows, cols, n - 1);
      if f.y1 <= f.y2 && !Crossed(f) {
        FrontsNeverPass(rows, cols, f);
      }
    }
  }

  lemma {:induction false} RowsOnlyMoveApart(rows: nat, cols: nat, n: nat, k: nat)
    requires n <= k
    ensures After(rows, cols, n).y1 <= After(rows, cols, k).y1
    ensures After(rows, cols, n).y2 >= After(rows, cols, k).y2
    decreases k
  {
    if n == k {
    } else {
      RowsOnlyMoveApart(rows, cols, n, k - 1);
    }
  }

  lemma StillInLastColumn(rows: nat, cols: nat, f: Fronts, g: Fronts)
    requires Swept(rows, cols, f) && Swept(rows, cols, g)
    requires f.i <= g.i && f.y2 == g.y2 && g.x2 == cols
    ensures f.x2 == cols
  {
  }

  /** On a passing size no turn ever crosses: before the meeting the backward front is still in
      the last column of its row, and afterwards the forward front is a row ahead for good. */
  lemma {:induction false} PassingSizeNeverCrosses(rows: nat, cols: nat, k: nat)
    requires 1 <= rows && 1 <= cols && PassingSize(rows, cols)
    ensures !Crossed(After(rows, cols, k))
  {
    var n, y := PassingSizeMeetsHeadOn(rows, cols);
    var f := After(rows, cols, k);
    AfterSweeps(rows, cols, k);
    if k <= n {
      RowsOnlyMoveApart(rows, cols, k, n);
      AfterSweeps(rows, cols, n);
      if f.y1 == f.y2 {
        StillInLastColumn(rows, cols, f, After(rows, cols, n));
      }
    } else {
      RowsOnlyMoveApart(rows, cols, n + 1, k);
      assert After(rows, cols, n + 1).y1 == y + 1;
    }
  }

  /** The animation ends if and only if the screen is not of a passing size. */
  lemma {:induction false} EndsExactlyUnlessPassing(rows: nat, cols: nat)
    requires 1 <= rows && 1 <= cols
    ensures (exists n: nat :: Crossed(After(rows, cols, n))) <==> !PassingSize(rows, cols)
  {
    if PassingSize(rows, cols) {
      forall n: nat
        ensures !Crossed(After(rows, cols, n))
      {
        PassingSizeNeverCrosses(rows, cols, n);
      }
    } else {
      var n := rows * (cols + 1) + cols + 1;
      CrossedOrInOrder(rows, cols, n);
      AfterSweeps(rows, cols, n);
      if After(rows, cols, n).y1 <= After(rows, cols, n).y2 {
        TurnsBounded(rows, cols, After(rows, cols, n));
        assert false;
      }
    }
  }

  /** The smallest passing height for a given width: one row short of twice the width. */
  lemma BelowFirstPassingHeight(rows: nat, cols: nat)
    requires 1 <= rows && 1 <= cols && rows < 2 * cols - 1
    ensures !PassingSize(rows, cols) && PassingSize(2 * cols - 1, cols)
  {
    assert 0 < rows + 2 < 2 * cols + 1;
  }

  // ----- the picture -----

  function MessageRow(rows: nat): int {
    rows / 2
  }

  function MessageColumn(msg: string, cols: nat): int {
    cols / 2 - |msg| / 2
  }

  /** What the finished screen shows at row y, column x. */
  function Picture(msg: string, rows: nat, cols: nat, y: int, x: int): char {
    var left := MessageColumn(msg, cols);
    if y == MessageRow(rows) && left <= x < left + |msg| then msg[x - left] else '*'
  }

  /** The place of a message of n characters that starts at row y, column x: below it there are as many rows as
      there are down to it, or one more; to its right there are two or three cells more than to its left, an
      odd character counted as a cell. */
  predicate InTheMiddle(rows: nat, cols: nat, n: nat, y: int, x: int) {
    var left, right := x - 1, cols - (x + n - 1);
    0 <= (rows - y) - y <= 1 && 2 <= right - left + n % 2 <= 3
  }

  /** There is one such place, and the message is put there. */
  lemma MessageInTheMiddle(msg: string, rows: nat, cols: nat, y: int, x: int)
    ensures InTheMiddle(rows, cols, |msg|, y, x) <==> y == MessageRow(rows) && x == MessageColumn(msg, cols)
  {
  }

  /** The message stands whole in its row exactly on screens with a second row and at least 22
      columns; where it stands, its k-th character is k columns right of its start. */
  lemma WholeMessageShows(rows: nat, cols: nat)
    requires 1 <= rows && 1 <= cols
    ensures (1 <= MessageRow(rows)
             && 1 <= MessageColumn(MESSAGE, cols) && MessageColumn(MESSAGE, cols) + |MESSAGE| - 1 <= cols)
            <==> (rows >= 2 && cols >= 22)
    ensures InTheMiddle(rows, cols, 20, MessageRow(rows), MessageColumn(MESSAGE, cols))
    ensures forall k | 0 <= k < |MESSAGE| ::
              Picture(MESSAGE, rows, cols, MessageRow(rows), MessageColumn(MESSAGE, cols) + k) == MESSAGE[k]
  {
  }

  /** The slower backward front is still below the message row whenever it is its turn. */
  lemma BackwardFrontStaysBelow(rows: nat, cols: nat, f: Fronts)
    requires 1 <= cols && Swept(rows, cols, f)
    requires f.y1 <= f.y2 && f.i % 2 == 1
    ensures f.y2 > MessageRow(rows)
  {
    var t := MessageRow(rows);
    if f.y2 <= t {
      ForwardTurnsUpTo(cols, f.y1, f.x1, t);
      BackwardTurnsDownTo(rows, cols, f.y2, f.x2, t);
    }
  }

  lemma ForwardTurnsUpTo(cols: nat, y: int, x: int, t: int)
    requires y <= t && x <= cols
    ensures (y - 1) * cols + x - 1 < t * cols
  {
    MulMonotone(y, t, cols);
    assert (y - 1) * cols == y * cols - cols;
  }

  lemma BackwardTurnsDownTo(rows: nat, cols: nat, y: int, x: int, t: int)
    requires y <= t && 2 * t <= rows && 0 <= t && x <= cols
    ensures (rows - y) * (cols + 1) + cols - x >= t * cols
  {
    MulMonotone(t, rows - y, cols + 1);
    assert t * (cols + 1) == t * cols + t;
  }

  lemma MulMonotone(a: int, b: int, c: nat)
    requires a <= b
    ensures a * c <= b * c
  {
  }

  /** A bound on the turns of an animation that ends: (rows + 1) * (cols + 1). */
  ghost function TurnLimit(rows: nat, cols: nat): nat {
    if rows == 0 then cols + 1 else cols + 1 + TurnLimit(rows - 1, cols)
  }

  lemma {:induction false} TurnLimitIsProduct(rows: nat, cols: nat)
    ensures TurnLimit(rows, cols) == (rows + 1) * (cols + 1)
  {
    if rows == 0 {
    } else {
      TurnLimitIsProduct(rows - 1, cols);
    }
  }

  /** All the loop needs about its turn n on a size that ends. */
  lemma TurnFacts(rows: nat, cols: nat, n: nat)
    requires 1 <= rows && 1 <= cols && !PassingSize(rows, cols)
    requires After(rows, cols, n).y1 <= After(rows, cols, n).y2
    ensures var f := After(rows, cols, n);
            && f.i == n < TurnLimit(rows, cols)
            && 1 <= f.x1 <= cols && 1 <= f.y1 && 0 <= f.x2 <= cols && f.y2 <= rows
            && (n % 2 == 1 ==> f.y2 > MessageRow(rows))
            && (!Crossed(f) ==> Advance(cols, f).y1 <= Advance(cols, f).y2)
    ensures After(rows, cols, n + 1) == Advance(cols, After(rows, cols, n))
  {
    var f := After(rows, cols, n);
    AfterSweeps(rows, cols, n);
    TurnsBounded(rows, cols, f);
    TurnLimitIsProduct(rows, cols);
    if n % 2 == 1 {
      BackwardFrontStaysBelow(rows, cols, f);
    }
    if !Crossed(f) {
      FrontsNeverPass(rows, cols, f);
    }
  }

  /** The cells behind either front. */
  ghost predicate Passed(f: Fronts, y: int, x: int) {
    || y < f.y1 || (y == f.y1 && x < f.x1)
    || y > f.y2 || (y == f.y2 && x > f.x2)
  }

  /** The cell painted in turn f.i. */
  ghost function PaintedRow(f: Fronts): int {
    if f.i % 2 == 0 then f.y1 else f.y2
  }

  ghost function PaintedColumn(f: Fronts): int {
    if f.i % 2 == 0 then f.x1 else if f.x2 == 0 then 1 else f.x2
  }

  /** A turn moves a front past the cell it paints and past no other cell of the screen. */
  lemma AdvancePasses(rows: nat, cols: nat, f: Fronts)
    requires 1 <= f.x1 <= cols && 0 <= f.x2 <= cols
    ensures forall y, x | 1 <= y <= rows && 1 <= x <= cols ::
              Passed(Advance(cols, f), y, x) ==>
                Passed(f, y, x) || (y == PaintedRow(f) && x == PaintedColumn(f))
  {
  }

  /** animation3: on every screen where it ends, the final picture is exact in every cell. */
  method Animation3(terminal: Terminal)
    requires terminal.Valid() && !PassingSize(terminal.rows, terminal.cols)
    modifies terminal
    ensures terminal.Valid()
    ensures forall y, x | 1 <= y <= terminal.rows && 1 <= x <= terminal.cols ::
              terminal.At(y, x) == Picture(MESSAGE, terminal.rows, terminal.cols, y, x)
    ensures exists row, col :: IsShown(terminal, "  no more computer  ", row, col)
  {
    terminal.Clear();
    Sweep(terminal, MESSAGE);
  }

  /** The screen shows the message in the middle, starting at the place, and asterisks in all other cells. */
  ghost predicate IsShown(terminal: Terminal, msg: string, row: int, col: int)
    requires terminal.Valid()
    reads terminal
  {
    && InTheMiddle(terminal.rows, terminal.cols, |msg|, row, col)
    && forall y, x | 1 <= y <= terminal.rows && 1 <= x <= terminal.cols ::
         terminal.At(y, x) == if y == row && col <= x < col + |msg| then msg[x - col] else '*'
  }

  lemma PictureIsShown(terminal: Terminal, msg: string)
    requires terminal.Valid()
    requires forall y, x | 1 <= y <= terminal.rows && 1 <= x <= terminal.cols ::
               terminal.At(y, x) == Picture(msg, terminal.rows, terminal.cols, y, x)
    ensures exists row, col :: IsShown(terminal, msg, row, col)
  {
    var row, col := MessageRow(terminal.rows), MessageColumn(msg, terminal.cols);
    MessageInTheMiddle(msg, terminal.rows, terminal.cols, row, col);
    assert IsShown(terminal, msg, row, col);
  }

  /** The loop of animation3, for any message. */
  method Sweep(terminal: Terminal, msg: string)
    requires terminal.Valid() && !PassingSize(terminal.rows, terminal.cols)
    modifies terminal
    ensures terminal.Valid()
    ensures forall y, x | 1 <= y <= terminal.rows && 1 <= x <= terminal.cols ::
              terminal.At(y, x) == Picture(msg, terminal.rows, terminal.cols, y, x)
    ensures exists row, col :: IsShown(terminal, msg, row, col)
  {
    var rows, cols := terminal.rows, terminal.cols;
    var x1, x2, y1, y2 := 1, cols, 1, rows;
    var i: nat := 0;
    var targetY, targetX := rows / 2, cols / 2 - |msg| / 2;
    ghost var f := Start(rows, cols);
    while !(y1 == y2 && x2 - x1 < 0)
      invariant terminal.Valid()
      invariant f == Fronts(x1, y1, x2, y2, i) && f == After(rows, cols, i) && y1 <= y2
      invariant forall y, x | 1 <= y <= rows && 1 <= x <= cols && Passed(f, y, x) ::
                  terminal.At(y, x) == Picture(msg, rows, cols, y, x)
      decreases TurnLimit(rows, cols) - i
    {
      TurnFacts(rows, cols, i);
      AdvancePasses(rows, cols, f);
      ghost var g := After(rows, cols, i + 1);
      var c: char;
      if i % 2 == 0 {
        if y1 == targetY && x1 >= targetX && x1 < targetX + |msg| {
          c := msg[x1 - targetX];
        } else {
          c := '*';
        }
        terminal.SetCursor(y1, x1);
        assert c == Picture(msg, rows, cols, PaintedRow(f), PaintedColumn(f));
        assert terminal.row == PaintedRow(f) && terminal.col == PaintedColumn(f);
        if x1 == cols {
          x1 := 1;
          y1 := y1 + 1;
        } else {
          x1 := x1 + 1;
        }
        assert g == Fronts(x1, y1, x2, y2, i + 1);
      } else {
        c := '*';
        terminal.SetCursor(y2, x2);
        assert c == Picture(msg, rows, cols, PaintedRow(f), PaintedColumn(f));
        assert terminal.row == PaintedRow(f) && terminal.col == PaintedColumn(f);
        if x2 == 0 {
          x2 := cols;
          y2 := y2 - 1;
        } else {
          x2 := x2 - 1;
        }
        assert g == Fronts(x1, y1, x2, y2, i + 1);
      }
      terminal.Put(c);
      i := i + 1;
      f := g;
    }
    PictureIsShown(terminal, msg);
  }
}
