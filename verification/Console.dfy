/** The scrolling text console of src/impl/x86_64/print.c. */
module Console {
  const NUM_COLS := 80
  const NUM_ROWS := 25

  /** The widest row: print_char starts a new row only when col exceeds NUM_COLS. */
  const WIDEST := 81

  datatype Char = Char(character: char, color: int)

  function Last<T>(s: seq<T>): T requires s != [] { s[|s| - 1] }

  function Init<T>(s: seq<T>): seq<T> requires s != [] { s[..|s| - 1] }

  function Max(a: int, b: int): int { if a < b then b else a }

  // ----- every row ever begun -----

  type Rows = rows: seq<string> | rows != [] witness [""]

  predicate Narrow(rows: Rows) { forall i :: 0 <= i < |rows| ==> |rows[i]| <= WIDEST }

  /** The rows after one more character. */
  function Next(rows: Rows, c: char): Rows {
    if c == '\n' then rows + [""]
    else if |Last(rows)| >= WIDEST then rows + [[c]]
    else Init(rows) + [Last(rows) + [c]]
  }

  function Extend(rows: Rows, text: string): Rows {
    if text == "" then rows else Next(Extend(rows, Init(text)), Last(text))
  }

  /** The first row on the screen. */
  function Top(rows: Rows): nat { Max(0, |rows| - NUM_ROWS) }

  /** Row i is empty, was not made by scrolling, and comes after a row with an 81st character. */
  predicate Spilt(rows: Rows, i: int) {
    && 0 < i < NUM_ROWS && i <= |rows|
    && |rows[i - 1]| == WIDEST
    && (i < |rows| ==> rows[i] == "")
  }

  /** What column c of row i shows: the row, blanks after it, and in column 0 the spill. */
  function Glyph(rows: Rows, i: nat, c: nat): char {
    if i < |rows| && c < |rows[i]| then rows[i][c]
    else if c == 0 && Spilt(rows, i) then rows[i - 1][WIDEST - 1]
    else ' '
  }

  lemma NextNarrow(rows: Rows, c: char)
    requires Narrow(rows)
    ensures Narrow(Next(rows, c))
  {
  }

  /** Breaking a row that is too wide before a character leaves the character alone on its row. */
  lemma NextAfterBreak(rows: Rows, c: char)
    requires c != '\n'
    ensures Next(rows + [""], c) == rows + [[c]]
  {
    assert Init(rows + [""]) == rows && "" + [c] == [c];
  }

  /** What cell k of the screen shows. */
  function Shown(rows: Rows, k: nat): char { Glyph(rows, Top(rows) + k / NUM_COLS, k % NUM_COLS) }

  lemma ShownNewRow(rows: Rows, k: nat)
    requires |rows| < NUM_ROWS && k < NUM_ROWS * NUM_COLS
    ensures Shown(rows + [""], k) == Shown(rows, k)
  {
  }

  lemma ShownScrolled(rows: Rows, k: nat)
    requires |rows| >= NUM_ROWS && k < NUM_ROWS * NUM_COLS
    ensures Shown(rows + [""], k) == if k < (NUM_ROWS - 1) * NUM_COLS then Shown(rows, k + NUM_COLS) else ' '
  {
    var r := k / NUM_COLS;
    assert (k + NUM_COLS) / NUM_COLS == r + 1 && (k + NUM_COLS) % NUM_COLS == k % NUM_COLS;
    assert r < NUM_ROWS - 1 <==> k < (NUM_ROWS - 1) * NUM_COLS;
  }

  /** One more character changes one cell. */
  lemma ShownPut(rows: Rows, ch: char, k: nat)
    requires |Last(rows)| < WIDEST && ch != '\n' && k < NUM_ROWS * NUM_COLS
    ensures Top(Next(rows, ch)) == Top(rows)
    ensures Shown(Next(rows, ch), k) ==
            if k == |Last(rows)| + NUM_COLS * (|rows| - 1 - Top(rows)) then ch else Shown(rows, k)
  {
    GlyphPut(rows, ch, Top(rows) + k / NUM_COLS, k % NUM_COLS);
  }

  lemma GlyphPut(rows: Rows, ch: char, i: nat, c: nat)
    requires |Last(rows)| < WIDEST && ch != '\n' && c < NUM_COLS && i < Top(rows) + NUM_ROWS
    ensures Glyph(Next(rows, ch), i, c) ==
            if i == |rows| - 1 + |Last(rows)| / NUM_COLS && c == |Last(rows)| % NUM_COLS then ch else Glyph(rows, i, c)
  {
  }

  class Console {
    const buffer: array<Char>
    var col: nat
    var row: nat
    var color: int
    ghost var shown: Rows

    /** The cursor stays where a write hits the buffer: up to one cell past the screen. */
    ghost predicate Ready()
      reads this, buffer
    {
      row < NUM_ROWS && col <= WIDEST && buffer.Length > NUM_ROWS * NUM_COLS
    }

    /** The screen shows the last 25 of the rows, and the cursor is at the end of the last one. */
    ghost predicate Valid()
      reads this, buffer
    {
      && Ready()
      && Narrow(shown)
      && row == |shown| - 1 - Top(shown)
      && col == |Last(shown)|
      && forall k :: 0 <= k < NUM_ROWS * NUM_COLS ==>
           buffer[k] == Char(Shown(shown, k), color)
    }

    constructor (video: array<Char>, attribute: int)
      requires video.Length > NUM_ROWS * NUM_COLS
      ensures Ready() && buffer == video && row == 0 && col == 0 && color == attribute
    {
      buffer, row, col, color, shown := video, 0, 0, attribute, [""];
    }

    method ClearRow(r: nat)
      requires Ready() && r < NUM_ROWS
      modifies buffer
      ensures forall k :: 0 <= k < buffer.Length ==>
        buffer[k] == if NUM_COLS * r <= k < NUM_COLS * (r + 1) then Char(' ', color) else old(buffer[k])
    {
      var empty := Char(' ', color);
      for c := 0 to NUM_COLS
        invariant forall k :: 0 <= k < buffer.Length ==>
          buffer[k] == if NUM_COLS * r <= k < NUM_COLS * r + c then empty else old(buffer[k])
      {
        buffer[c + NUM_COLS * r] := empty;
      }
    }

    /** All cells become blank; the cursor stays, as if it had been moved there over blanks. */
    method PrintClear()
      requires Ready()
      modifies buffer, `shown
      ensures Valid() && shown == Blank(row, col)
      ensures forall k :: 0 <= k < NUM_ROWS * NUM_COLS ==> buffer[k] == Char(' ', color)
    {
      for i := 0 to NUM_ROWS
        invariant forall k :: 0 <= k < NUM_COLS * i ==> buffer[k] == Char(' ', color)
      {
        ClearRow(i);
      }
      shown := Blank(row, col);
    }

    /** The scrolling loops: every cell takes the one below it. */
    method Scroll()
      requires Ready()
      modifies buffer
      ensures forall k :: 0 <= k < buffer.Length ==>
        buffer[k] == if k < (NUM_ROWS - 1) * NUM_COLS then old(buffer[k + NUM_COLS]) else old(buffer[k])
    {
      for r := 1 to NUM_ROWS
        invariant forall k :: 0 <= k < buffer.Length ==>
          buffer[k] == if k < NUM_COLS * (r - 1) then old(buffer[k + NUM_COLS]) else old(buffer[k])
      {
        for c := 0 to NUM_COLS
          invariant forall k :: 0 <= k < buffer.Length ==>
            buffer[k] == if k < NUM_COLS * (r - 1) + c then old(buffer[k + NUM_COLS]) else old(buffer[k])
        {
          var character := buffer[c + NUM_COLS * r];
          buffer[c + NUM_COLS * (r - 1)] := character;
        }
      }
    }

    method PrintNewline()
      requires Valid()
      modifies buffer, `row, `col, `shown
      ensures Valid() && shown == Next(old(shown), '\n')
    {
      ghost var rows := shown;
      NextNarrow(rows, '\n');
      if row < NUM_ROWS - 1 {
        col, row := 0, row + 1;
        shown := rows + [""];
        forall k | 0 <= k < NUM_ROWS * NUM_COLS
          ensures buffer[k] == Char(Shown(shown, k), color)
        {
          ShownNewRow(rows, k);
        }
        return;
      }
      ScrollUp();
      col := 0;
      shown := rows + [""];
    }

    /** On the last row the screen moves up by one. */
    method ScrollUp()
      requires Valid() && row == NUM_ROWS - 1
      modifies buffer
      ensures forall k :: 0 <= k < NUM_ROWS * NUM_COLS ==>
        buffer[k] == Char(Shown(shown + [""], k), color)
    {
      Scroll();
      ClearRow(NUM_ROWS - 1);
      forall k | 0 <= k < NUM_ROWS * NUM_COLS
        ensures buffer[k] == Char(Shown(shown + [""], k), color)
      {
        ShownScrolled(shown, k);
      }
    }

    method PrintChar(character: char)
      requires Valid()
      modifies buffer, `row, `col, `shown
      ensures Valid() && shown == Next(old(shown), character)
      ensures shown == Extend(old(shown), [character])
    {
      ExtendByOne(shown, character);
      if character == '\n' {
        PrintNewline();
        return;
      }
      if col > NUM_COLS {
        PrintNewline();
      }
      NextAfterBreak(old(shown), character);
      Put(character);
    }

    /** The store at the cursor. */
    method Put(character: char)
      requires Valid() && character != '\n' && col <= NUM_COLS
      modifies buffer, `col, `shown
      ensures Valid() && shown == Next(old(shown), character)
    {
      ghost var rows := shown;
      NextNarrow(rows, character);
      buffer[col + NUM_COLS * row] := Char(character, color);
      col := col + 1;
      shown := Next(rows, character);
      forall k | 0 <= k < NUM_ROWS * NUM_COLS
        ensures buffer[k] == Char(Shown(shown, k), color)
      {
        ShownPut(rows, character, k);
      }
    }

    /** print_str; the string is the characters before its NUL. */
    method PrintStr(str: string)
      requires Valid()
      modifies buffer, `row, `col, `shown
      ensures Valid() && shown == Extend(old(shown), str)
    {
      for i := 0 to |str|
        invariant Valid() && shown == Extend(old(shown), str[..i])
      {
        PrintChar(str[i]);
        assert Init(str[..i + 1]) == str[..i];
      }
      assert str[..|str|] == str;
    }

    /** print_clear with the cursor at the first cell, then one print_str after another, as in
        kernel_main. */
    method ClearAndPrint(texts: seq<string>)
      requires Ready() && row == 0 && col == 0
      modifies buffer, `row, `col, `shown
      ensures Valid() && shown == AllChunks(Lines(Concat(texts)))
      ensures AtMost(Lines(Concat(texts)), 80) ==>
                forall r, c :: 0 <= r < 25 && 0 <= c < 80 ==>
                  buffer[c + 80 * r] == Char(Tail(Lines(Concat(texts)), r, c), color)
    {
      PrintClear();
      for i := 0 to |texts|
        invariant Valid() && shown == ExtendAll(Blank(0, 0), texts[..i])
      {
        PrintStr(texts[i]);
        ExtendAllSnoc(Blank(0, 0), texts[..i], texts[i]);
        assert texts[..i + 1] == texts[..i] + [texts[i]];
      }
      assert texts[..|texts|] == texts;
      BlankAtOrigin();
      ExtendAllConcat([""], texts);
      RowsAreChunks(Concat(texts));
      if AtMost(Lines(Concat(texts)), NUM_COLS) {
        forall r, c | 0 <= r < NUM_ROWS && 0 <= c < NUM_COLS
          ensures buffer[c + NUM_COLS * r] == Char(Tail(Lines(Concat(texts)), r, c), color)
        {
          CellsShowTail(this, texts, r, c);
        }
      }
    }
  }

  function Spaces(n: nat): (s: string)
    ensures |s| == n && forall i :: 0 <= i < n ==> s[i] == ' '
  {
    seq(n, _ => ' ')
  }

  /** Rows that show nothing, with the cursor at the given place. */
  function Blank(row: nat, col: nat): Rows {
    seq(row, _ => "") + [Spaces(col)]
  }

  // ----- rows and lines -----

  /** The lines of a text. */
  function Lines(text: string): (lines: seq<string>)
    ensures lines != []
  {
    if text == "" then [""]
    else
      var lines := Lines(Init(text));
      if Last(text) == '\n' then lines + [""] else Init(lines) + [Last(lines) + [Last(text)]]
  }

  function Join(lines: seq<string>): string
    requires lines != []
  {
    if |lines| == 1 then lines[0] else Join(Init(lines)) + ['\n'] + Last(lines)
  }

  /** Joined by line breaks the lines are the text, ... */
  lemma {:induction false} LinesJoin(text: string)
    ensures Join(Lines(text)) == text
  {
    if text != "" {
      LinesJoin(Init(text));
      JoinStep(text);
      SnocLast(text);
    }
  }

  lemma SnocLast(text: string)
    requires text != ""
    ensures Init(text) + [Last(text)] == text
  {
  }

  lemma JoinStep(text: string)
    requires text != ""
    ensures Join(Lines(text)) == Join(Lines(Init(text))) + [Last(text)]
  {
    var lines := Lines(Init(text));
    if Last(text) == '\n' {
      JoinSnoc(lines, "");
    } else {
      JoinLonger(lines, Last(text));
    }
  }

  /** ... and none of them holds a line break: there is one such split. */
  lemma {:induction false} LinesUnbroken(text: string, i: nat)
    requires i < |Lines(text)|
    ensures '\n' !in Lines(text)[i]
  {
    if text != "" {
      var lines := Lines(Init(text));
      if i < |lines| {
        LinesUnbroken(Init(text), i);
      }
    }
  }

  lemma JoinSnoc(lines: seq<string>, line: string)
    requires lines != []
    ensures Join(lines + [line]) == Join(lines) + ['\n'] + line
  {
    assert Init(lines + [line]) == lines;
  }

  lemma JoinLonger(lines: seq<string>, c: char)
    requires lines != []
    ensures Join(Init(lines) + [Last(lines) + [c]]) == Join(lines) + [c]
  {
    if |lines| > 1 {
      JoinSnoc(Init(lines), Last(lines) + [c]);
      assert Join(lines) == Join(Init(lines)) + ['\n'] + Last(lines);
    }
  }

  /** A line cut after every 81 characters. */
  function Chunks(line: string): Rows {
    if |line| <= WIDEST then [line] else [line[..WIDEST]] + Chunks(line[WIDEST..])
  }

  lemma {:induction false} ChunksSnoc(line: string, c: char)
    ensures Chunks(line + [c]) ==
            if |Last(Chunks(line))| >= WIDEST then Chunks(line) + [[c]]
            else Init(Chunks(line)) + [Last(Chunks(line)) + [c]]
  {
    if |line| > WIDEST {
      ChunksSnoc(line[WIDEST..], c);
      assert (line + [c])[WIDEST..] == line[WIDEST..] + [c];
      assert (line + [c])[..WIDEST] == line[..WIDEST];
      assert Last(Chunks(line)) == Last(Chunks(line[WIDEST..]));
      assert Init(Chunks(line)) == [line[..WIDEST]] + Init(Chunks(line[WIDEST..]));
    } else if |line| == WIDEST {
      assert (line + [c])[WIDEST..] == [c];
      assert (line + [c])[..WIDEST] == line;
    } else {
      assert Init(Chunks(line)) == [];
    }
  }

  function AllChunks(lines: seq<string>): seq<string> {
    if lines == [] then [] else AllChunks(Init(lines)) + Chunks(Last(lines))
  }

  /** What is printed on a blank screen from its first cell on makes these rows: each line cut after every 81 characters. */
  lemma {:induction false} RowsAreChunks(text: string)
    ensures Extend([""], text) == AllChunks(Lines(text))
  {
    if text == "" {
      assert Init([""]) == [];
    } else {
      RowsAreChunks(Init(text));
      var lines, c := Lines(Init(text)), Last(text);
      if c == '\n' {
        AllChunksSnoc(lines, "");
      } else {
        AllChunksSnoc(Init(lines), Last(lines) + [c]);
        ChunksSnoc(Last(lines), c);
        LastOfConcat(AllChunks(Init(lines)), Chunks(Last(lines)));
      }
    }
  }

  lemma AllChunksSnoc(lines: seq<string>, line: string)
    ensures AllChunks(lines + [line]) == AllChunks(lines) + Chunks(line)
  {
    assert Init(lines + [line]) == lines;
  }

  lemma LastOfConcat(before: seq<string>, rows: Rows)
    ensures Last(before + rows) == Last(rows) && Init(before + rows) == before + Init(rows)
  {
  }

  /** No line is wider than n. */
  predicate AtMost(lines: seq<string>, n: nat) { forall i :: 0 <= i < |lines| ==> |lines[i]| <= n }

  /** The rows are the lines exactly when no line has more than 81 characters. */
  lemma RowsAreLinesIff(text: string)
    ensures Extend([""], text) == Lines(text) <==> AtMost(Lines(text), 81)
  {
    RowsAreChunks(text);
    ChunksAreLinesIff(Lines(text));
  }

  lemma ChunksAreLinesIff(lines: seq<string>)
    ensures AllChunks(lines) == lines <==> AtMost(lines, WIDEST)
  {
    if AtMost(lines, WIDEST) {
      ShortLines(lines);
    }
    AllChunksNarrow(lines);
  }

  lemma {:induction false} ShortLines(lines: seq<string>)
    requires AtMost(lines, WIDEST)
    ensures AllChunks(lines) == lines
  {
    if lines != [] {
      var init, last := lines[..|lines| - 1], lines[|lines| - 1];
      assert AtMost(init, WIDEST);
      ShortLines(init);
      ShortStep(init, last);
      assert init + [last] == lines;
    }
  }

  lemma ShortStep(init: seq<string>, last: string)
    requires AllChunks(init) == init && |last| <= WIDEST
    ensures AllChunks(init + [last]) == init + [last]
  {
    AllChunksSnoc(init, last);
  }

  lemma {:induction false} ChunksNarrow(line: string)
    ensures AtMost(Chunks(line), WIDEST)
  {
    if |line| > WIDEST {
      ChunksNarrow(line[WIDEST..]);
    }
  }

  lemma {:induction false} AllChunksNarrow(lines: seq<string>)
    ensures AtMost(AllChunks(lines), WIDEST)
  {
    if lines != [] {
      AllChunksNarrow(Init(lines));
      ChunksNarrow(Last(lines));
    }
  }

  /** The last 25 lines, padded with blanks and cut at the right edge. */
  function Tail(lines: seq<string>, r: nat, c: nat): char {
    var i := Max(0, |lines| - 25) + r;
    if i < |lines| && c < |lines[i]| then lines[i][c] else ' '
  }

  /** The screen is the tail of the rows. */
  predicate ShowsTail(rows: Rows) {
    forall r, c :: 0 <= r < NUM_ROWS && 0 <= c < NUM_COLS ==> Glyph(rows, Top(rows) + r, c) == Tail(rows, r, c)
  }

  /** That is so unless an 81st character other than a blank is still to be seen at the start of an empty row. */
  lemma ShowsTailIff(rows: Rows)
    ensures ShowsTail(rows) <==>
            forall i :: Top(rows) <= i < Top(rows) + NUM_ROWS && Spilt(rows, i) ==> rows[i - 1][WIDEST - 1] == ' '
  {
    if ShowsTail(rows) {
      forall i | Top(rows) <= i < Top(rows) + NUM_ROWS && Spilt(rows, i)
        ensures rows[i - 1][WIDEST - 1] == ' '
      {
        assert Glyph(rows, Top(rows) + (i - Top(rows)), 0) == Tail(rows, i - Top(rows), 0);
      }
    }
  }

  /** The console shows the tail of a text without a line of more than 80 characters. */
  lemma ConsoleShowsTail(text: string)
    requires AtMost(Lines(text), NUM_COLS)
    ensures Extend([""], text) == Lines(text)
    ensures ShowsTail(Extend([""], text))
  {
    RowsAreLinesIff(text);
    ShowsTailIff(Lines(text));
  }

  lemma BlankAtOrigin()
    ensures Blank(0, 0) == [""]
  {
    assert Spaces(0) == "";
  }

  /** Printing one string after another is printing them joined, ... */
  lemma {:induction false} ExtendConcat(rows: Rows, a: string, b: string)
    ensures Extend(Extend(rows, a), b) == Extend(rows, a + b)
    decreases |b|
  {
    if b == "" {
      assert a + b == a;
    } else {
      ExtendConcat(rows, a, Init(b));
      assert Init(a + b) == a + Init(b) && Last(a + b) == Last(b);
    }
  }

  /** ... and a character printed by itself is a string of one. */
  lemma ExtendByOne(rows: Rows, c: char)
    ensures Extend(rows, [c]) == Next(rows, c)
  {
    assert Init([c]) == "";
  }

  /** The rows after any number of prints. */
  function ExtendAll(rows: Rows, texts: seq<string>): Rows {
    if texts == [] then rows else Extend(ExtendAll(rows, Init(texts)), Last(texts))
  }

  function Concat(texts: seq<string>): string {
    if texts == [] then "" else Concat(Init(texts)) + Last(texts)
  }

  lemma {:induction false} ExtendAllConcat(rows: Rows, texts: seq<string>)
    ensures ExtendAll(rows, texts) == Extend(rows, Concat(texts))
    decreases |texts|
  {
    if texts != [] {
      ExtendAllConcat(rows, Init(texts));
      ExtendConcat(rows, Concat(Init(texts)), Last(texts));
    }
  }

  lemma ExtendAllSnoc(rows: Rows, texts: seq<string>, text: string)
    ensures ExtendAll(rows, texts + [text]) == Extend(ExtendAll(rows, texts), text)
  {
    assert Init(texts + [text]) == texts;
  }

  /** The cells themselves, after any prints from the first cell of a cleared screen on whose text
      has no line of more than 80 characters. */
  lemma CellsShowTail(console: Console, texts: seq<string>, r: nat, c: nat)
    requires console.Valid() && console.shown == ExtendAll(Blank(0, 0), texts)
    requires AtMost(Lines(Concat(texts)), 80) && r < 25 && c < 80
    ensures console.buffer[c + 80 * r] == Char(Tail(Lines(Concat(texts)), r, c), console.color)
  {
    var lines := Lines(Concat(texts));
    BlankAtOrigin();
    ExtendAllConcat([""], texts);
    ConsoleShowsTail(Concat(texts));
    CellOf(r, c);
    ShownAt(lines, r, c);
    CellShown(console, lines, r, c);
  }

  lemma CellShown(console: Console, rows: Rows, r: nat, c: nat)
    requires console.Valid() && console.shown == rows && r < NUM_ROWS && c < NUM_COLS
    ensures console.buffer[c + NUM_COLS * r] == Char(Glyph(rows, Top(rows) + r, c), console.color)
  {
    CellOf(r, c);
    assert 0 <= c + NUM_COLS * r < NUM_ROWS * NUM_COLS;
    assert Shown(rows, c + NUM_COLS * r) == Glyph(rows, Top(rows) + r, c);
  }

  lemma CellOf(r: nat, c: nat)
    requires c < NUM_COLS
    ensures (c + NUM_COLS * r) / NUM_COLS == r && (c + NUM_COLS * r) % NUM_COLS == c
  {
  }

  lemma ShownAt(rows: Rows, r: nat, c: nat)
    requires ShowsTail(rows) && r < NUM_ROWS && c < NUM_COLS
    ensures Glyph(rows, Top(rows) + r, c) == Tail(rows, r, c)
  {
  }

  /** With 81 characters on a line it need not: the last one is also on the next row, which the text has not reached. */
  lemma WideLineSpills()
    ensures var text := seq(81, _ => 'x');
            Lines(text) == [text] && Extend([""], text) == [text]
            && Glyph([text], 1, 0) == 'x' && Tail([text], 1, 0) == ' ' && !ShowsTail([text])
  {
    var text := seq(81, _ => 'x');
    OneLine(text);
    RowsAreLinesIff(text);
    assert Glyph([text], Top([text]) + 1, 0) != Tail([text], 1, 0);
  }

  lemma {:induction false} OneLine(text: string)
    requires '\n' !in text
    ensures Lines(text) == [text]
  {
    if text != "" {
      var init, c := Init(text), Last(text);
      SnocLast(text);
      assert c != '\n' && '\n' !in init;
      OneLine(init);
      OneLonger(text);
    }
  }

  lemma OneLonger(text: string)
    requires text != "" && Last(text) != '\n' && Lines(Init(text)) == [Init(text)]
    ensures Lines(text) == [text]
  {
    SnocLast(text);
    assert Init([Init(text)]) == [];
  }
}
