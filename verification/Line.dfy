/** vga_draw_line of src/impl/drivers/video/vga.c: Bresenham's line, as the sequence of
    points it plots and as what it leaves in the back buffer. */
module Line {
  import opened Arithmetic
  import opened Memory

  datatype Point = Point(x: int, y: int)

  type uint16 = v: int | 0 <= v < 0x1_0000

  /** C's integer division by two, which truncates toward zero. */
  function HalfOf(v: int): int { if v < 0 then -(-v / 2) else v / 2 }

  function Step(from: int, to: int): int { if from < to then 1 else -1 }

  // ----- the reference line -----

  /** Minor steps after k major ones: the quotient k * minor / major rounded to the
      nearest integer, ties toward zero. */
  function MinorAt(k: nat, major: nat, minor: nat): nat {
    if major == 0 then 0 else Rounded(k, major, minor) / major
  }

  function Remainder(k: nat, major: nat, minor: nat): nat {
    if major == 0 then 0 else Rounded(k, major, minor) % major
  }

  function Rounded(k: nat, major: nat, minor: nat): nat
    requires major > 0
  {
    k * minor + (major - 1) / 2
  }

  function Major(a: Point, b: Point): nat {
    if Abs(b.x - a.x) > Abs(b.y - a.y) then Abs(b.x - a.x) else Abs(b.y - a.y)
  }

  /** The k-th point of the line from a to b. */
  function PointAt(a: Point, b: Point, k: nat): Point {
    var dx, dy := Abs(b.x - a.x), Abs(b.y - a.y);
    var sx, sy := Step(a.x, b.x), Step(a.y, b.y);
    if dx > dy then Point(a.x + sx * k, a.y + sy * MinorAt(k, dx, dy))
    else Point(a.x + sx * MinorAt(k, dy, dx), a.y + sy * k)
  }

  lemma QuotientStep(a: nat, d: nat, q: nat, r: nat, more: nat)
    requires d > 0 && a == q * d + r && r < d && more <= d
    ensures (a + more) / d == q + (if r + more >= d then 1 else 0)
    ensures (a + more) % d == if r + more >= d then r + more - d else r + more
  {
    if r + more >= d {
      assert a + more == (q + 1) * d + (r + more - d);
      DivModUnique(a + more, d, q + 1, r + more - d);
    } else {
      DivModUnique(a + more, d, q, r + more);
    }
  }

  lemma RoundedStep(k: nat, major: nat, minor: nat)
    requires major > 0
    ensures Rounded(k + 1, major, minor) == Rounded(k, major, minor) + minor
  {
    assert (k + 1) * minor == k * minor + minor;
  }

  /** One more major step: the minor coordinate moves exactly when the remainder runs
      over. */
  lemma MinorStep(k: nat, major: nat, minor: nat)
    requires minor <= major && major > 0
    ensures var r := Remainder(k, major, minor);
            && r < major
            && Rounded(k, major, minor) == MinorAt(k, major, minor) * major + r
            && MinorAt(k + 1, major, minor) == MinorAt(k, major, minor) + (if r + minor >= major then 1 else 0)
            && Remainder(k + 1, major, minor) == if r + minor >= major then r + minor - major else r + minor
  {
    var a := Rounded(k, major, minor);
    QuotientAndRemainder(a, major);
    QuotientStep(a, major, a / major, a % major, minor);
    RoundedStep(k, major, minor);
  }

  lemma MinorEnds(major: nat, minor: nat)
    requires minor <= major && major > 0
    ensures MinorAt(0, major, minor) == 0 && Remainder(0, major, minor) == (major - 1) / 2
    ensures MinorAt(major, major, minor) == minor
  {
    DivModUnique(Rounded(0, major, minor), major, 0, (major - 1) / 2);
    DivModUnique(Rounded(major, major, minor), major, minor, (major - 1) / 2);
  }

  lemma {:induction false} MinorMonotone(j: nat, k: nat, major: nat, minor: nat)
    requires minor <= major && major > 0 && j <= k
    ensures MinorAt(j, major, minor) <= MinorAt(k, major, minor)
    decreases k - j
  {
    if j < k {
      MinorStep(j, major, minor);
      MinorMonotone(j + 1, k, major, minor);
    }
  }

  /** Within half a pixel of the ideal line, and of the two nearest pixels the one
      chosen on a tie is the one nearer the start. */
  lemma HalfPixel(k: nat, major: nat, minor: nat)
    requires minor <= major && major > 0
    ensures var d: int := 2 * (MinorAt(k, major, minor) * major - k * minor);
            0 - major <= d < major
  {
    MinorStep(k, major, minor);
  }

  // ----- the drawn line -----

  lemma MinorInRange(k: nat, major: nat, minor: nat)
    requires minor <= major && major > 0 && k <= major
    ensures MinorAt(k, major, minor) <= minor
  {
    MinorMonotone(k, major, major, minor);
    MinorEnds(major, minor);
  }

  predicate Between(v: int, a: int, b: int) { (a <= v <= b) || (b <= v <= a) }

  lemma StepsBetween(a: int, b: int, k: nat)
    ensures a + Step(a, b) * k == b <==> k == Abs(b - a)
  {
    if a < b {
      assert Step(a, b) * k == k;
    } else {
      assert Step(a, b) * k == 0 - k;
    }
  }

  lemma Starts(a: Point, b: Point)
    ensures PointAt(a, b, 0) == a
  {
    var dx, dy := Abs(b.x - a.x), Abs(b.y - a.y);
    if dx > dy {
      MinorEnds(dx, dy);
    } else if dy > 0 {
      MinorEnds(dy, dx);
    }
  }

  lemma FlatArrives(a: Point, b: Point, k: nat)
    requires Abs(b.x - a.x) > Abs(b.y - a.y)
    ensures PointAt(a, b, k) == b <==> k == Major(a, b)
  {
    var dx, dy := Abs(b.x - a.x), Abs(b.y - a.y);
    StepsBetween(a.x, b.x, k);
    MinorEnds(dx, dy);
    StepsBetween(a.y, b.y, dy);
  }

  lemma SteepArrives(a: Point, b: Point, k: nat)
    requires Abs(b.x - a.x) <= Abs(b.y - a.y)
    ensures PointAt(a, b, k) == b <==> k == Major(a, b)
  {
    var dx, dy := Abs(b.x - a.x), Abs(b.y - a.y);
    StepsBetween(a.y, b.y, k);
    if dy > 0 {
      MinorEnds(dy, dx);
    }
    StepsBetween(a.x, b.x, dx);
  }

  /** The line starts at a, ends at b, and reaches b at no other step. */
  lemma LineEnds(a: Point, b: Point, k: nat)
    ensures PointAt(a, b, 0) == a && PointAt(a, b, Major(a, b)) == b
    ensures PointAt(a, b, k) == b <==> k == Major(a, b)
  {
    Starts(a, b);
    if Abs(b.x - a.x) > Abs(b.y - a.y) {
      FlatArrives(a, b, k);
      FlatArrives(a, b, Major(a, b));
    } else {
      SteepArrives(a, b, k);
      SteepArrives(a, b, Major(a, b));
    }
  }

  /** Every point lies in the box of the end points. */
  lemma LineInBox(a: Point, b: Point, k: nat)
    requires k <= Major(a, b)
    ensures Between(PointAt(a, b, k).x, a.x, b.x) && Between(PointAt(a, b, k).y, a.y, b.y)
  {
    var dx, dy := Abs(b.x - a.x), Abs(b.y - a.y);
    if dx > dy {
      MinorInRange(k, dx, dy);
    } else if dy > 0 {
      MinorInRange(k, dy, dx);
    }
  }

  /** Each point is a neighbour of the last, and a new one. */
  lemma LineConnected(a: Point, b: Point, k: nat)
    requires k < Major(a, b)
    ensures var p, q := PointAt(a, b, k), PointAt(a, b, k + 1);
            p != q && Abs(q.x - p.x) <= 1 && Abs(q.y - p.y) <= 1
  {
    var dx, dy := Abs(b.x - a.x), Abs(b.y - a.y);
    if dx > dy {
      MinorStep(k, dx, dy);
    } else {
      MinorStep(k, dy, dx);
    }
  }

  /** Every point is within half a pixel of the ideal line, measured along the minor
      axis: with (i, j) the distances gone from a, |j * dx - i * dy| <= max(dx, dy) / 2. */
  lemma LineHalfPixel(a: Point, b: Point, k: nat)
    requires k <= Major(a, b)
    ensures var p := PointAt(a, b, k);
            2 * Abs(Abs(p.y - a.y) * Abs(b.x - a.x) - Abs(p.x - a.x) * Abs(b.y - a.y)) <= Major(a, b)
  {
    var dx, dy := Abs(b.x - a.x), Abs(b.y - a.y);
    var p := PointAt(a, b, k);
    if dx > dy {
      HalfPixel(k, dx, dy);
      assert Abs(p.x - a.x) == k && Abs(p.y - a.y) == MinorAt(k, dx, dy);
    } else if dy > 0 {
      HalfPixel(k, dy, dx);
      assert Abs(p.y - a.y) == k && Abs(p.x - a.x) == MinorAt(k, dy, dx);
    }
  }

  /** Which points those are: k-th is the one k major steps from a whose distance from the ideal
      line is less than half a pixel, or half a pixel on the side of a. */
  lemma LineExactly(a: Point, b: Point, k: nat)
    requires k <= Major(a, b)
    ensures var dx, dy := Abs(b.x - a.x), Abs(b.y - a.y);
            var i, j := Abs(PointAt(a, b, k).x - a.x), Abs(PointAt(a, b, k).y - a.y);
            if dx > dy then i == k && 0 - dx <= 2 * (j * dx - k * dy) < dx
            else j == k && (dy > 0 ==> 0 - dy <= 2 * (i * dy - k * dx) < dy)
  {
    var dx, dy := Abs(b.x - a.x), Abs(b.y - a.y);
    var p := PointAt(a, b, k);
    if dx > dy {
      HalfPixel(k, dx, dy);
      assert Abs(p.x - a.x) == k && Abs(p.y - a.y) == MinorAt(k, dx, dy);
    } else if dy > 0 {
      HalfPixel(k, dy, dx);
      assert Abs(p.y - a.y) == k && Abs(p.x - a.x) == MinorAt(k, dy, dx);
    }
  }

  function Points(a: Point, b: Point): (ps: seq<Point>)
    ensures |ps| == Major(a, b) + 1
  {
    seq(Major(a, b) + 1, (k: nat) => PointAt(a, b, k))
  }

  // ----- the loop of vga_draw_line -----

  /** The error accumulator after k steps. */
  function ErrAt(a: Point, b: Point, k: nat): int {
    var dx, dy := Abs(b.x - a.x), Abs(b.y - a.y);
    if dx > dy then dx - 1 - Remainder(k, dx, dy)
    else if dy > 0 then Remainder(k, dy, dx) - (dy - 1)
    else 0
  }

  lemma ErrStart(a: Point, b: Point)
    ensures var dx, dy := Abs(b.x - a.x), Abs(b.y - a.y);
            ErrAt(a, b, 0) == HalfOf(if dx > dy then dx else 0 - dy)
  {
    var dx, dy := Abs(b.x - a.x), Abs(b.y - a.y);
    if dx > dy {
      MinorEnds(dx, dy);
    } else if dy > 0 {
      MinorEnds(dy, dx);
    }
  }

  /** The bounds the accumulator keeps. */
  lemma ErrInRange(a: Point, b: Point, k: nat)
    ensures var dx, dy := Abs(b.x - a.x), Abs(b.y - a.y);
            if dx > dy then 0 <= ErrAt(a, b, k) < dx
            else if dy > 0 then 0 - dy < ErrAt(a, b, k) <= 0
            else ErrAt(a, b, k) == 0
  {
  }

  /** The two tests of the loop body take the line to its next point. */
  lemma LoopStep(a: Point, b: Point, k: nat)
    requires k < Major(a, b)
    ensures Turn(a, b, PointAt(a, b, k), ErrAt(a, b, k), PointAt(a, b, k + 1), ErrAt(a, b, k + 1))
  {
    if Abs(b.x - a.x) > Abs(b.y - a.y) {
      FlatLoopStep(a, b, k);
    } else {
      SteepLoopStep(a, b, k);
    }
  }

  lemma FlatLoopStep(a: Point, b: Point, k: nat)
    requires Abs(b.x - a.x) > Abs(b.y - a.y) && k < Major(a, b)
    ensures Turn(a, b, PointAt(a, b, k), ErrAt(a, b, k), PointAt(a, b, k + 1), ErrAt(a, b, k + 1))
  {
    var dx, dy := Abs(b.x - a.x), Abs(b.y - a.y);
    MinorStep(k, dx, dy);
    ScaledStep(Step(a.x, b.x), k);
    ScaledStep(Step(a.y, b.y), MinorAt(k, dx, dy));
  }

  lemma SteepLoopStep(a: Point, b: Point, k: nat)
    requires Abs(b.x - a.x) <= Abs(b.y - a.y) && k < Major(a, b)
    ensures Turn(a, b, PointAt(a, b, k), ErrAt(a, b, k), PointAt(a, b, k + 1), ErrAt(a, b, k + 1))
  {
    var dx, dy := Abs(b.x - a.x), Abs(b.y - a.y);
    MinorStep(k, dy, dx);
    ScaledStep(Step(a.y, b.y), k);
    ScaledStep(Step(a.x, b.x), MinorAt(k, dy, dx));
  }

  predicate InCoordinates(p: Point) { 0 <= p.x < 0x1_0000 && 0 <= p.y < 0x1_0000 }

  /** One turn of the loop: from point p with error e to point q with error f. */
  predicate Turn(a: Point, b: Point, p: Point, e: int, q: Point, f: int) {
    var dx, dy := Abs(b.x - a.x), Abs(b.y - a.y);
    && q.x == p.x + (if e > 0 - dx then Step(a.x, b.x) else 0)
    && q.y == p.y + (if e < dy then Step(a.y, b.y) else 0)
    && f == e - (if e > 0 - dx then dy else 0) + (if e < dy then dx else 0)
  }

  function Errors(a: Point, b: Point): (es: seq<int>) {
    seq(Major(a, b) + 1, (k: nat) => ErrAt(a, b, k))
  }

  /** The points and errors of a whole run of the loop, which stops at its first b. */
  ghost predicate IsRun(a: Point, b: Point, ps: seq<Point>, es: seq<int>) {
    && |ps| == |es| > 0 && ps[0] == a && ps[|ps| - 1] == b
    && es[0] == HalfOf(if Abs(b.x - a.x) > Abs(b.y - a.y) then Abs(b.x - a.x) else 0 - Abs(b.y - a.y))
    && (forall k :: 0 <= k < |ps| ==> InCoordinates(ps[k]))
    && (forall k :: 0 <= k < |ps| - 1 ==> ps[k] != b)
    && (forall k {:trigger TurnAt(a, b, ps, es, k)} :: 0 <= k < |ps| - 1 ==> TurnAt(a, b, ps, es, k))
  }

  ghost predicate TurnAt(a: Point, b: Point, ps: seq<Point>, es: seq<int>, k: int) {
    0 <= k && k + 1 < |ps| && k + 1 < |es| && Turn(a, b, ps[k], es[k], ps[k + 1], es[k + 1])
  }

  lemma LineIsRun(a: Point, b: Point)
    requires InCoordinates(a) && InCoordinates(b)
    ensures IsRun(a, b, Points(a, b), Errors(a, b))
  {
    var ps, es, n := Points(a, b), Errors(a, b), Major(a, b);
    LineEnds(a, b, 0);
    ErrStart(a, b);
    forall k | 0 <= k <= n
      ensures InCoordinates(ps[k]) && (k < n ==> ps[k] != b)
    {
      PointFacts(a, b, k);
    }
    forall k | 0 <= k < n
      ensures TurnAt(a, b, ps, es, k)
    {
      LoopStep(a, b, k);
    }
  }

  lemma PointFacts(a: Point, b: Point, k: nat)
    requires InCoordinates(a) && InCoordinates(b) && k <= Major(a, b)
    ensures InCoordinates(PointAt(a, b, k)) && (k < Major(a, b) ==> PointAt(a, b, k) != b)
  {
    LineInBox(a, b, k);
    LineEnds(a, b, k);
  }

  lemma ScaledStep(s: int, k: nat)
    ensures s * (k + 1) == s * k + s
  {
  }

  // ----- the back buffer -----

  datatype Mode = Mode(width: nat, height: nat, pitch: nat)

  predicate OnScreen(m: Mode, p: Point) { 0 <= p.x < m.width && 0 <= p.y < m.height }

  function Offset(m: Mode, p: Point): nat
    requires OnScreen(m, p)
  {
    p.y * m.pitch + p.x
  }

  /** A mode whose rows do not overlap and fit the buffer. */
  predicate Fits(m: Mode, size: nat) {
    m.width <= m.pitch && m.height * m.pitch <= size
  }

  /** The pixel, if it is on the screen, is in the buffer. */
  predicate InBuffer(m: Mode, size: nat, p: Point) { OnScreen(m, p) ==> Offset(m, p) < size }

  /** In such a mode every pixel is. */
  lemma FittingModeInBuffer(m: Mode, size: nat, p: Point)
    requires Fits(m, size)
    ensures InBuffer(m, size, p)
  {
    if OnScreen(m, p) {
      LargerQuotient(m.pitch, m.height, 0, p.y, p.x);
    }
  }

  lemma OffsetInjective(m: Mode, p: Point, q: Point)
    requires m.width <= m.pitch && OnScreen(m, p) && OnScreen(m, q) && Offset(m, p) == Offset(m, q)
    ensures p == q
  {
    LargerQuotient(m.pitch, p.y, p.x, q.y, q.x);
    LargerQuotient(m.pitch, q.y, q.x, p.y, p.x);
  }

  function Plot(buf: seq<byte>, m: Mode, p: Point, c: byte): (r: seq<byte>)
    ensures |r| == |buf|
  {
    if OnScreen(m, p) && Offset(m, p) < |buf| then buf[Offset(m, p) := c] else buf
  }

  function PlotAll(buf: seq<byte>, m: Mode, ps: seq<Point>, c: byte): (r: seq<byte>)
    ensures |r| == |buf|
  {
    if ps == [] then buf
    else Plot(PlotAll(buf, m, ps[..|ps| - 1], c), m, ps[|ps| - 1], c)
  }

  /** One of the points is stored at offset o. */
  predicate Hits(m: Mode, ps: seq<Point>, o: nat) {
    exists k :: 0 <= k < |ps| && StoredAt(m, ps[k], o)
  }

  predicate StoredAt(m: Mode, p: Point, o: nat) { OnScreen(m, p) && Offset(m, p) == o }

  lemma {:induction false} PlotAllHits(buf: seq<byte>, m: Mode, ps: seq<Point>, c: byte, o: nat)
    requires o < |buf|
    ensures PlotAll(buf, m, ps, c)[o] == if Hits(m, ps, o) then c else buf[o]
  {
    if ps != [] {
      var init := ps[..|ps| - 1];
      PlotAllHits(buf, m, init, c, o);
      HitsSnoc(m, ps, o);
    }
  }

  /** Whatever the mode, plotting changes exactly the bytes y * pitch + x of the points that are
      on the screen. */
  lemma PlotAllBytes(buf: seq<byte>, m: Mode, ps: seq<Point>, c: byte, o: nat)
    requires o < |buf|
    ensures PlotAll(buf, m, ps, c)[o] ==
            if exists k :: 0 <= k < |ps| && 0 <= ps[k].x < m.width && 0 <= ps[k].y < m.height
                           && ps[k].y * m.pitch + ps[k].x == o
            then c else buf[o]
  {
    PlotAllHits(buf, m, ps, c, o);
    if Hits(m, ps, o) {
      var k :| 0 <= k < |ps| && StoredAt(m, ps[k], o);
      assert ps[k].y * m.pitch + ps[k].x == o;
    }
    if k :| 0 <= k < |ps| && 0 <= ps[k].x < m.width && 0 <= ps[k].y < m.height
            && ps[k].y * m.pitch + ps[k].x == o {
      assert StoredAt(m, ps[k], o);
    }
  }

  lemma HitsSnoc(m: Mode, ps: seq<Point>, o: nat)
    requires ps != []
    ensures Hits(m, ps, o) == (Hits(m, ps[..|ps| - 1], o) || StoredAt(m, ps[|ps| - 1], o))
  {
    var init := ps[..|ps| - 1];
    if Hits(m, init, o) {
      var k :| 0 <= k < |init| && StoredAt(m, init[k], o);
      assert StoredAt(m, ps[k], o);
    }
    if Hits(m, ps, o) {
      var k :| 0 <= k < |ps| && StoredAt(m, ps[k], o);
      assert k < |init| ==> StoredAt(m, init[k], o);
    }
  }

  /** In a mode whose rows do not overlap it colours exactly the points plotted, clipped to the screen. */
  lemma PlotAllMeaning(buf: seq<byte>, m: Mode, ps: seq<Point>, c: byte, q: Point)
    requires m.width <= m.pitch && 0 <= q.x < m.width && 0 <= q.y < m.height && q.y * m.pitch + q.x < |buf|
    ensures PlotAll(buf, m, ps, c)[q.y * m.pitch + q.x] == if q in ps then c else buf[q.y * m.pitch + q.x]
  {
    PlotAllHits(buf, m, ps, c, Offset(m, q));
    if Hits(m, ps, Offset(m, q)) {
      var k :| 0 <= k < |ps| && StoredAt(m, ps[k], Offset(m, q));
      OffsetInjective(m, ps[k], q);
    }
    if q in ps {
      var k :| 0 <= k < |ps| && ps[k] == q;
      assert StoredAt(m, ps[k], Offset(m, q));
    }
  }

  /** Where rows do not overlap, byte y * pitch + x of every pixel on the screen shows whether the
      pixel is one of the points. */
  ghost predicate Pictured(buf: seq<byte>, buf': seq<byte>, m: Mode, ps: seq<Point>, c: byte) {
    |buf'| == |buf| &&
    (m.width <= m.pitch ==>
       forall x: nat, y: nat :: x < m.width && y < m.height && y * m.pitch + x < |buf| ==>
         buf'[y * m.pitch + x] == if Point(x, y) in ps then c else buf[y * m.pitch + x])
  }

  lemma PlotAllPictures(buf: seq<byte>, buf': seq<byte>, m: Mode, ps: seq<Point>, c: byte)
    requires buf' == PlotAll(buf, m, ps, c)
    ensures Pictured(buf, buf', m, ps, c)
  {
    if m.width <= m.pitch {
      forall x: nat, y: nat | x < m.width && y < m.height && y * m.pitch + x < |buf|
        ensures buf'[y * m.pitch + x] == if Point(x, y) in ps then c else buf[y * m.pitch + x]
      {
        PlotAllMeaning(buf, m, ps, c, Point(x, y));
      }
    }
  }

  lemma PlotNext(buf: seq<byte>, m: Mode, ps: seq<Point>, k: nat, c: byte)
    requires k < |ps|
    ensures PlotAll(buf, m, ps[..k + 1], c) == Plot(PlotAll(buf, m, ps[..k], c), m, ps[k], c)
  {
    assert ps[..k + 1][..k] == ps[..k];
  }

  /** vga_set_mode's 320x200x256 mode, and the buffer's size. */
  const MODE_13H: Mode := Mode(320, 200, 320)
  const VGA_MEMORY_SIZE: nat := 0x1_0000

  class Vga {
    var mode: Mode
    const backBuffer: array<byte>
    ghost var plotted: seq<Point>

    ghost predicate Valid()
      reads this
    {
      Fits(mode, backBuffer.Length)
    }

    constructor Mode13h()
      ensures Valid() && mode == Mode(320, 200, 320) && plotted == [] && fresh(backBuffer)
      ensures backBuffer[..] == seq(0x1_0000, _ => 0)
    {
      mode := MODE_13H;
      backBuffer := new byte[VGA_MEMORY_SIZE](_ => 0);
      plotted := [];
    }

    method SetPixel(x: uint16, y: uint16, color: byte)
      requires InBuffer(mode, backBuffer.Length, Point(x, y))
      modifies this`plotted, backBuffer
      ensures plotted == old(plotted) + [Point(x, y)]
      ensures backBuffer[..] == Plot(old(backBuffer[..]), mode, Point(x, y), color)
      ensures forall o :: 0 <= o < backBuffer.Length ==>
                backBuffer[o] == if x < mode.width && y < mode.height && o == y * mode.pitch + x
                                 then color else old(backBuffer[o])
    {
      plotted := plotted + [Point(x, y)];
      if x >= mode.width || y >= mode.height {
        return;
      }
      var offset := y * mode.pitch + x;
      backBuffer[offset] := color;
    }

    /** The visible pixels of a line are in the buffer. */
    ghost predicate LineInBuffer(a: Point, b: Point)
      reads this
    {
      forall k :: 0 <= k <= Major(a, b) ==> InBuffer(mode, backBuffer.Length, Points(a, b)[k])
    }

    /** Plots the points of the line, in order, and nothing else. */
    method DrawLine(x1: uint16, y1: uint16, x2: uint16, y2: uint16, color: byte)
      requires LineInBuffer(Point(x1, y1), Point(x2, y2))
      modifies this`plotted, backBuffer
      ensures plotted == old(plotted) + Points(Point(x1, y1), Point(x2, y2))
      ensures backBuffer[..] == PlotAll(old(backBuffer[..]), mode, Points(Point(x1, y1), Point(x2, y2)), color)
      ensures Pictured(old(backBuffer[..]), backBuffer[..], mode, Points(Point(x1, y1), Point(x2, y2)), color)
    {
      ghost var a, b := Point(x1, y1), Point(x2, y2);
      ghost var before := backBuffer[..];
      LineIsRun(a, b);
      DrawRun(x1, y1, x2, y2, color, Points(a, b), Errors(a, b));
      PlotAllPictures(before, backBuffer[..], mode, Points(a, b), color);
    }

    /** In a mode that fits the buffer every line may be drawn. */
    lemma FittingLine(a: Point, b: Point)
      requires Valid()
      ensures LineInBuffer(a, b)
    {
      forall k | 0 <= k <= Major(a, b)
        ensures InBuffer(mode, backBuffer.Length, Points(a, b)[k])
      {
        FittingModeInBuffer(mode, backBuffer.Length, Points(a, b)[k]);
      }
    }

    /** The loop, along the run it is bound to make. */
    method DrawRun(x1: uint16, y1: uint16, x2: uint16, y2: uint16, color: byte,
                   ghost ps: seq<Point>, ghost es: seq<int>)
      requires IsRun(Point(x1, y1), Point(x2, y2), ps, es)
      requires forall k :: 0 <= k < |ps| ==> InBuffer(mode, backBuffer.Length, ps[k])
      modifies this`plotted, backBuffer
      ensures plotted == old(plotted) + ps
      ensures backBuffer[..] == PlotAll(old(backBuffer[..]), mode, ps, color)
    {
      var dx: int, dy: int := Abs(x2 - x1), Abs(y2 - y1);
      var sx, sy := Step(x1, x2), Step(y1, y2);
      var x, y := x1, y1;
      var err := HalfOf(if dx > dy then dx else -dy);
      ghost var k: nat := 0;
      while true
        invariant k < |ps| && Point(x, y) == ps[k] && err == es[k]
        invariant plotted == old(plotted) + ps[..k]
        invariant backBuffer[..] == PlotAll(old(backBuffer[..]), mode, ps[..k], color)
        decreases |ps| - k
      {
        SetPixel(x, y, color);
        PlotNext(old(backBuffer[..]), mode, ps, k, color);
        assert ps[..k + 1] == ps[..k] + [ps[k]];
        if x == x2 && y == y2 {
          break;
        }
        x, y, err := NextPixel(x, y, err, dx, dy, sx, sy, Point(x1, y1), Point(x2, y2), ps, es, k);
        k := k + 1;
      }
      assert ps[..k + 1] == ps;
    }

    /** The two tests of the loop body, from the k-th pixel to the next. */
    method NextPixel(x: uint16, y: uint16, err: int, dx: int, dy: int, sx: int, sy: int,
                     ghost a: Point, ghost b: Point, ghost ps: seq<Point>, ghost es: seq<int>, ghost k: nat)
      returns (x': uint16, y': uint16, err': int)
      requires dx == Abs(b.x - a.x) && dy == Abs(b.y - a.y) && sx == Step(a.x, b.x) && sy == Step(a.y, b.y)
      requires IsRun(a, b, ps, es) && k < |ps| - 1 && Point(x, y) == ps[k] && err == es[k]
      ensures Point(x', y') == ps[k + 1] && err' == es[k + 1]
    {
      assert TurnAt(a, b, ps, es, k);
      x', y', err' := x, y, err;
      var e2 := err;
      if e2 > -dx {
        err' := err' - dy;
        x' := (x' + sx) % 0x1_0000;
      }
      if e2 < dy {
        err' := err' + dx;
        y' := (y' + sy) % 0x1_0000;
      }
    }
  }
}
