/** print_num and vsnprintf of src/impl/kernel/string.c. */
module Format {
  import opened Arithmetic
  import opened Memory
  import opened Sequences

  const UPPER: string := "0123456789ABCDEF"
  const LOWER: string := "0123456789abcdef"
  const INT_MIN := -0x8000_0000

  type int32 = i: int | -0x8000_0000 <= i < 0x8000_0000

  // ----- digits -----

  predicate Alphabet(a: string) { a == UPPER || a == LOWER }

  /** The two bases print_num is called with. */
  predicate Base(b: nat) { b == 10 || b == 16 }

  function Quot(n: nat, base: nat): nat requires Base(base) { if base == 10 then n / 10 else n / 16 }

  function Rem(n: nat, base: nat): (d: nat) requires Base(base) ensures d < base { if base == 10 then n % 10 else n % 16 }

  /** The digits of n, most significant first. */
  function Digits(n: nat, base: nat, a: string): (s: string)
    requires Base(base) && |a| == 16
    ensures s != ""
  {
    if n < base then [a[n]] else Digits(Quot(n, base), base, a) + [a[Rem(n, base)]]
  }

  /** The value of one digit in either case; -1 for another character. */
  function DigitValue(c: char): int {
    if '0' <= c <= '9' then c as int - '0' as int
    else if 'A' <= c <= 'F' then c as int - 'A' as int + 10
    else if 'a' <= c <= 'f' then c as int - 'a' as int + 10
    else -1
  }

  /** Reading a number back. */
  function Value(s: string, base: nat): int {
    if s == "" then 0 else Value(s[..|s| - 1], base) * base + DigitValue(s[|s| - 1])
  }

  lemma DigitOfAlphabet(d: nat, a: string)
    requires d < 16 && Alphabet(a)
    ensures DigitValue(a[d]) == d && a[d] != '-'
    ensures a[d] == '0' <==> d == 0
  {
  }

  lemma ValueSnoc(s: string, c: char, base: nat)
    ensures Value(s + [c], base) == Value(s, base) * base + DigitValue(c)
  {
    assert (s + [c])[..|s|] == s;
  }

  lemma QuotRem(n: nat, base: nat)
    requires Base(base)
    ensures Quot(n, base) * base + Rem(n, base) == n
    ensures n >= base ==> Quot(n, base) > 0
  {
  }

  /** Reading the digits of a number in either alphabet gives it back. */
  lemma {:induction false} ValueOfDigits(n: nat, base: nat, a: string)
    requires Base(base) && Alphabet(a)
    ensures Value(Digits(n, base, a), base) == n
  {
    if n < base {
      DigitOfAlphabet(n, a);
      ValueSnoc("", a[n], base);
      assert [] + [a[n]] == [a[n]];
    } else {
      DigitOfAlphabet(Rem(n, base), a);
      ValueOfDigits(Quot(n, base), base, a);
      ValueSnoc(Digits(Quot(n, base), base, a), a[Rem(n, base)], base);
      QuotRem(n, base);
    }
  }

  lemma {:induction false} AllDigits(n: nat, base: nat, a: string, k: nat)
    requires Base(base) && Alphabet(a) && k < |Digits(n, base, a)|
    ensures DigitValue(Digits(n, base, a)[k]) >= 0
  {
    DigitOfAlphabet(Rem(n, base), a);
    if n >= base && k < |Digits(Quot(n, base), base, a)| {
      AllDigits(Quot(n, base), base, a, k);
    }
  }

  /** No leading zero but in zero itself. */
  lemma {:induction false} FirstDigit(n: nat, base: nat, a: string)
    requires Base(base) && Alphabet(a)
    ensures Digits(n, base, a)[0] == '0' <==> n == 0
  {
    if n < base {
      DigitOfAlphabet(n, a);
    } else {
      FirstDigit(Quot(n, base), base, a);
    }
  }

  function Pow(base: nat, e: nat): nat { if e == 0 then 1 else base * Pow(base, e - 1) }

  /** k digits are enough exactly for the numbers below base to the k. */
  lemma {:induction false} DigitCount(n: nat, base: nat, a: string, k: nat)
    requires Base(base) && |a| == 16 && k > 0
    ensures |Digits(n, base, a)| <= k <==> n < Pow(base, k)
  {
    assert Pow(base, k) == base * Pow(base, k - 1);
    if k == 1 {
      assert Pow(base, 0) == 1;
    } else if n < base {
      PowAtLeast(base, k);
    } else {
      DigitCount(Quot(n, base), base, a, k - 1);
    }
  }

  lemma {:induction false} PowAtLeast(base: nat, k: nat)
    requires base >= 2 && k > 0
    ensures Pow(base, k) >= base
  {
    if k > 1 {
      PowAtLeast(base, k - 1);
      assert base * Pow(base, k - 1) >= base * 1;
    }
  }

  // ----- the digit loop and the reversing copy -----

  function Rev(s: string): (r: string)
    ensures |r| == |s|
  {
    if s == "" then "" else [s[|s| - 1]] + Rev(s[..|s| - 1])
  }

  lemma RevSnoc(s: string, c: char)
    ensures Rev(s + [c]) == [c] + Rev(s)
  {
    assert (s + [c])[..|s|] == s;
  }

  /** One round of the digit loop moves the last digit still to come to the end of the buffer. */
  lemma DigitStep(num: nat, base: nat, a: string, before: string, all: string)
    requires Base(base) && |a| == 16 && Digits(num, base, a) + Rev(before) == all
    ensures Quot(num, base) == 0 ==> Rev(before + [a[Rem(num, base)]]) == all
    ensures Quot(num, base) != 0 ==> Quot(num, base) < num
    ensures Quot(num, base) != 0 ==> Digits(Quot(num, base), base, a) + Rev(before + [a[Rem(num, base)]]) == all
  {
    var c := a[Rem(num, base)];
    RevSnoc(before, c);
    QuotRem(num, base);
    QuotSmaller(num, base);
    if num >= base {
      Assoc(Digits(Quot(num, base), base, a), [c], Rev(before));
    }
  }

  lemma QuotSmaller(n: nat, base: nat)
    requires Base(base)
    ensures Quot(n, base) == 0 <==> n < base
    ensures n > 0 ==> Quot(n, base) < n
    ensures n < base ==> Rem(n, base) == n
  {
  }

  /**
   * The do-while loop of print_num and of both numeric cases of vsnprintf: the digits, least
   * significant first. The loop also stops at the given limit.
   */
  method DigitLoop(buf: array<char>, n: nat, base: nat, a: string, limit: nat) returns (len: nat)
    requires Base(base) && |a| == 16
    requires |Digits(n, base, a)| <= limit <= buf.Length
    modifies buf
    ensures len == |Digits(n, base, a)|
    ensures Rev(buf[..len]) == Digits(n, base, a)
  {
    ghost var all := Digits(n, base, a);
    var num := n;
    len := 0;
    assert Rev(buf[..0]) == "";
    while true
      invariant len < |all|
      invariant Digits(num, base, a) + Rev(buf[..len]) == all
      decreases num
    {
      ghost var before := buf[..len];
      DigitStep(num, base, a, before, all);
      buf[len] := a[Rem(num, base)];
      assert buf[..len + 1] == before + [a[Rem(num, base)]];
      len, num := len + 1, Quot(num, base);
      if num == 0 || len >= limit { break; }
    }
  }

  /** What an output step turns the buffer into: as much of s as still fits, nothing else. */
  function Put(before: string, n: nat, s: string, end: nat): (after: string)
    requires n <= end <= |before|
    ensures |after| == |before|
  {
    var k := Min(|s|, end - n);
    before[..n] + s[..k] + before[n + k..]
  }

  lemma PutIs(before: string, n: nat, s: string, end: nat, after: string)
    requires n <= end <= |before| == |after|
    requires var m := n + Min(|s|, end - n);
             after[..m] == before[..n] + s[..m - n] && forall k :: m <= k < |after| ==> after[k] == before[k]
    ensures after == Put(before, n, s, end)
  {
  }

  /** Two output steps are one. */
  lemma PutTwice(before: string, n: nat, s: string, t: string, end: nat)
    requires n <= end <= |before|
    ensures n + Min(|s|, end - n) <= end
    ensures Put(Put(before, n, s, end), n + Min(|s|, end - n), t, end) == Put(before, n, s + t, end)
  {
  }

  lemma {:induction false} RevAt(s: string, k: nat)
    requires k < |s|
    ensures Rev(s)[k] == s[|s| - 1 - k]
  {
    if k > 0 {
      RevAt(s[..|s| - 1], k - 1);
    }
  }

  /** The reversing copies: the buffered characters, last first, up to the end of the output. */
  method CopyReversed(buf: array<char>, len: nat, str: array<char>, at: nat, end: nat) returns (n: nat)
    requires buf != str && len <= buf.Length && at <= end <= str.Length
    modifies str
    ensures n == at + Min(len, end - at)
    ensures str[..] == Put(old(str[..]), at, Rev(old(buf[..len])), end)
  {
    ghost var digits, start := buf[..len], str[..];
    ghost var all := Rev(digits);
    n := at;
    var left := len;
    while left > 0 && n < end
      invariant left <= len && n == at + (len - left) && n <= end
      invariant str[..n] == start[..at] + all[..n - at]
      invariant forall k :: n <= k < str.Length ==> str[k] == start[k]
    {
      RevAt(digits, len - left);
      left := left - 1;
      str[n] := buf[left];
      n := n + 1;
    }
    PutIs(start, at, all, end, str[..]);
  }

  // ----- print_num -----

  function Repeat(c: char, k: int): string { if k <= 0 then "" else Repeat(c, k - 1) + [c] }

  /** The text of n, filled up on the left to the width. */
  function Padded(n: nat, base: nat, width: int, pad: char): string
    requires Base(base)
  {
    Repeat(pad, width - |Digits(n, base, UPPER)|) + Digits(n, base, UPPER)
  }

  lemma {:induction false} RepeatLength(c: char, k: int)
    ensures |Repeat(c, k)| == if k <= 0 then 0 else k
  {
    if k > 0 {
      RepeatLength(c, k - 1);
    }
  }

  lemma {:induction false} RepeatFront(c: char, k: int)
    requires k > 0
    ensures Repeat(c, k) == [c] + Repeat(c, k - 1)
  {
    if k > 1 {
      RepeatFront(c, k - 1);
    }
  }

  /** A 64-bit value has at most 20 digits. */
  lemma DigitsOf64(n: uint64, base: nat, a: string)
    requires Base(base) && |a| == 16
    ensures |Digits(n, base, a)| <= 20
  {
    DigitCount(n, base, a, 20);
    assert Pow(10, 5) == 100000 && Pow(16, 5) == 1048576;
    assert Pow(10, 10) == 10000000000 && Pow(16, 10) == 1099511627776;
    assert Pow(10, 15) == 1000000000000000 && Pow(16, 15) == 1152921504606846976;
  }

  lemma PadStep(before: string, pad: char, k: int, digits: string)
    requires k > 0 && Rev(before) == Repeat(pad, k - 1) + digits
    ensures Rev(before + [pad]) == Repeat(pad, k) + digits
  {
    RevSnoc(before, pad);
    RepeatFront(pad, k);
  }

  /** print_num writes the padded text at the cursor and nothing else. */
  method PrintNum(str: array<char>, at: nat, num: uint64, base: nat, width: int, pad: char) returns (n: nat)
    requires Base(base) && width <= 65
    requires at + |Padded(num, base, width, pad)| <= str.Length
    modifies str
    ensures n == at + |Padded(num, base, width, pad)|
    ensures str[..] == old(str[..at]) + Padded(num, base, width, pad) + old(str[n..])
  {
    var tmp, i := PrintBuffer(num, base, width, pad);
    n := CopyReversed(tmp, i, str, at, str.Length);
    PutWhole(old(str[..]), at, Padded(num, base, width, pad));
  }

  lemma PutWhole(before: string, n: nat, s: string)
    requires n + |s| <= |before|
    ensures Put(before, n, s, |before|) == before[..n] + s + before[n + |s|..]
  {
  }

  /** The buffer of print_num: the padded text, last character first. */
  method PrintBuffer(num: uint64, base: nat, width: int, pad: char) returns (tmp: array<char>, i: nat)
    requires Base(base) && width <= 65
    ensures fresh(tmp) && i <= tmp.Length && Rev(tmp[..i]) == Padded(num, base, width, pad)
  {
    tmp := new char[65];
    DigitsOf64(num, base, UPPER);
    var len := DigitLoop(tmp, num, base, UPPER, 65);
    i := Fill(tmp, len, width, pad, Digits(num, base, UPPER));
  }

  /** The padding loop of print_num. */
  method Fill(tmp: array<char>, len: nat, width: int, pad: char, ghost digits: string) returns (i: nat)
    requires len <= tmp.Length && width <= tmp.Length && len == |digits| && Rev(tmp[..len]) == digits
    modifies tmp
    ensures i <= tmp.Length && Rev(tmp[..i]) == Repeat(pad, width - len) + digits
  {
    i := len;
    while i < width
      invariant len <= i <= tmp.Length && (i <= width || i == len)
      invariant Rev(tmp[..i]) == Repeat(pad, i - len) + digits
    {
      PadStep(tmp[..i], pad, i - len + 1, digits);
      assert tmp[..i] + [pad] == tmp[..i][..i] + [pad];
      tmp[i] := pad;
      i := i + 1;
      assert tmp[..i] == tmp[..i - 1] + [pad];
    }
  }

  /** Dropping the leading fill characters. */
  function Strip(s: string, pad: char): string {
    if s != "" && s[0] == pad then Strip(s[1..], pad) else s
  }

  lemma {:induction false} StripRepeat(pad: char, k: int, s: string)
    ensures Strip(Repeat(pad, k) + s, pad) == Strip(s, pad)
    decreases k
  {
    if k > 0 {
      RepeatFront(pad, k);
      assert (Repeat(pad, k) + s)[1..] == Repeat(pad, k - 1) + s;
      StripRepeat(pad, k - 1, s);
    } else {
      assert Repeat(pad, k) + s == s;
    }
  }

  lemma StripDigits(num: nat, base: nat, pad: char)
    requires Base(base) && (pad == '0' || DigitValue(pad) < 0)
    ensures Value(Strip(Digits(num, base, UPPER), pad), base) == num
  {
    var d := Digits(num, base, UPPER);
    ValueOfDigits(num, base, UPPER);
    FirstDigit(num, base, UPPER);
    AllDigits(num, base, UPPER, 0);
    if d[0] != pad {
      assert Strip(d, pad) == d;
    } else {
      assert num == 0;
      assert d == ['0'];
      assert Strip(d, pad) == Strip(d[1..], pad) == "";
    }
  }

  /**
   * The text of print_num reads back as the number once the fill is dropped, whether it is filled
   * with zeros or with a character that is no digit.
   */
  lemma PrintNumReadsBack(num: nat, base: nat, width: int, pad: char)
    requires Base(base) && (pad == '0' || DigitValue(pad) < 0)
    ensures Value(Strip(Padded(num, base, width, pad), pad), base) == num
  {
    StripPadded(num, base, width, pad);
    StripDigits(num, base, pad);
  }

  lemma StripPadded(num: nat, base: nat, width: int, pad: char)
    requires Base(base)
    ensures Strip(Padded(num, base, width, pad), pad) == Strip(Digits(num, base, UPPER), pad)
  {
    StripRepeat(pad, width - |Digits(num, base, UPPER)|, Digits(num, base, UPPER));
  }

  /** The text has the width asked for, or as many characters as the number needs digits if those are more. */
  lemma PrintNumWidth(num: nat, base: nat, width: int, pad: char, k: nat)
    requires Base(base) && k > 0
    ensures |Padded(num, base, width, pad)| <= k <==> width <= k && num < Pow(base, k)
    ensures |Padded(num, base, width, pad)| >= width
  {
    RepeatLength(pad, width - |Digits(num, base, UPPER)|);
    DigitCount(num, base, UPPER, k);
  }

  // ----- vsnprintf -----

  /** One variadic argument, as the format takes it; C strings are the characters before the NUL. */
  datatype Arg = Str(s: string) | Int(i: int32) | UInt(u: uint32)

  function Decimal(i: int): string {
    (if i < 0 then "-" else "") + Digits(Abs(i), 10, UPPER)
  }

  /** The argument list begins with what conversion c takes; -INT_MIN does not fit an int. */
  predicate Takes(c: char, args: seq<Arg>) {
    && (c == 's' ==> args != [] && args[0].Str?)
    && (c == 'd' ==> args != [] && args[0].Int? && args[0].i > INT_MIN)
    && (c == 'x' ==> args != [] && args[0].UInt?)
  }

  function Piece(c: char, args: seq<Arg>): string
    requires Takes(c, args)
  {
    if c == 's' then args[0].s
    else if c == 'd' then Decimal(args[0].i)
    else if c == 'x' then Digits(args[0].u, 16, LOWER)
    else [c]
  }

  function Taken(c: char): nat { if c == 's' || c == 'd' || c == 'x' then 1 else 0 }

  /** The format does not end inside a conversion, and the arguments fit it. */
  predicate Fits(fmt: string, args: seq<Arg>) {
    fmt != "" ==>
      if fmt[0] != '%' then Fits(fmt[1..], args)
      else |fmt| >= 2 && Takes(fmt[1], args) && Fits(fmt[2..], args[Taken(fmt[1])..])
  }

  /** The unbounded rendering. */
  function Render(fmt: string, args: seq<Arg>): string
    requires Fits(fmt, args)
  {
    if fmt == "" then ""
    else if fmt[0] != '%' then [fmt[0]] + Render(fmt[1..], args)
    else Piece(fmt[1], args) + Render(fmt[2..], args[Taken(fmt[1])..])
  }

  /** What is out so far is a prefix of the whole, and unless the output is full the rest follows. */
  predicate Progress(out: string, end: nat, rest: string, full: string) {
    |out| <= end && out <= full && (|out| < end ==> out + rest == full)
  }

  lemma ProgressStep(before: string, n: nat, end: nat, s: string, rest: string, full: string)
    requires n < end <= |before| && Progress(before[..n], end, s + rest, full)
    ensures n + Min(|s|, end - n) <= end
    ensures Progress(Put(before, n, s, end)[..n + Min(|s|, end - n)], end, rest, full)
    ensures Put(before, n, s, end)[n + Min(|s|, end - n)..] == before[n + Min(|s|, end - n)..]
  {
    var k := Min(|s|, end - n);
    assert Put(before, n, s, end)[..n + k] == before[..n] + s[..k];
    assert full == before[..n] + s + rest;
    assert before[..n] + s[..k] == full[..n + k];
  }

  method PutChar(str: array<char>, at: nat, c: char, end: nat) returns (n: nat)
    requires at < end <= str.Length
    modifies str
    ensures n == at + 1
    ensures str[..] == Put(old(str[..]), at, [c], end)
  {
    str[at] := c;
    n := at + 1;
  }

  /** Case 's'. */
  method PutString(str: array<char>, at: nat, s: string, end: nat) returns (n: nat)
    requires at <= end <= str.Length
    modifies str
    ensures n == at + Min(|s|, end - at)
    ensures str[..] == Put(old(str[..]), at, s, end)
  {
    ghost var start := str[..];
    var i := 0;
    n := at;
    while i < |s| && n < end
      invariant i <= |s| && n == at + i && n <= end
      invariant str[..n] == start[..at] + s[..i]
      invariant forall k :: n <= k < str.Length ==> str[k] == start[k]
    {
      str[n] := s[i];
      n, i := n + 1, i + 1;
    }
    PutIs(start, at, s, end, str[..]);
  }

  /** The digits of both numeric cases, through the local buffer. */
  method PutNumber(str: array<char>, at: nat, u: uint64, base: nat, a: string, end: nat) returns (n: nat)
    requires at <= end <= str.Length && Base(base) && |a| == 16
    modifies str
    ensures n == at + Min(|Digits(u, base, a)|, end - at)
    ensures str[..] == Put(old(str[..]), at, Digits(u, base, a), end)
  {
    var numBuf := new char[32];
    DigitsOf64(u, base, a);
    var len := DigitLoop(numBuf, u, base, a, 31);
    n := CopyReversed(numBuf, len, str, at, end);
  }

  /** Case 'd'. */
  method PutInt(str: array<char>, at: nat, v: int32, end: nat) returns (n: nat)
    requires at <= end <= str.Length && v > INT_MIN
    modifies str
    ensures n == at + Min(|Decimal(v)|, end - at)
    ensures str[..] == Put(old(str[..]), at, Decimal(v), end)
  {
    if v < 0 {
      PutTwice(str[..], at, "-", Digits(0 - v, 10, UPPER), end);
      n := PutString(str, at, "-", end);
      n := PutNumber(str, n, 0 - v, 10, UPPER, end);
    } else {
      assert Decimal(v) == Digits(v, 10, UPPER);
      n := PutNumber(str, at, v, 10, UPPER, end);
    }
  }

  /** One conversion: the switch over the character after the percent sign. */
  method PutPiece(str: array<char>, at: nat, c: char, args: seq<Arg>, end: nat) returns (n: nat)
    requires at < end <= str.Length && Takes(c, args)
    modifies str
    ensures n == at + Min(|Piece(c, args)|, end - at)
    ensures str[..] == Put(old(str[..]), at, Piece(c, args), end)
  {
    if c == 's' {
      n := PutString(str, at, args[0].s, end);
    } else if c == 'd' {
      n := PutInt(str, at, args[0].i, end);
    } else if c == 'x' {
      n := PutNumber(str, at, args[0].u, 16, LOWER, end);
    } else {
      n := PutChar(str, at, c, end);
    }
  }

  /** What the format says from position i on, argument q being the next. */
  lemma RenderStep(fmt: string, i: nat, args: seq<Arg>, q: nat)
    requires i < |fmt| && q <= |args| && Fits(fmt[i..], args[q..])
    ensures fmt[i] != '%' ==> Fits(fmt[i + 1..], args[q..])
    ensures fmt[i] != '%' ==> Render(fmt[i..], args[q..]) == [fmt[i]] + Render(fmt[i + 1..], args[q..])
    ensures fmt[i] == '%' ==> i + 2 <= |fmt| && Takes(fmt[i + 1], args[q..]) && q + Taken(fmt[i + 1]) <= |args|
    ensures fmt[i] == '%' ==> Fits(fmt[i + 2..], args[q + Taken(fmt[i + 1])..])
    ensures fmt[i] == '%' ==>
      Render(fmt[i..], args[q..]) == Piece(fmt[i + 1], args[q..]) + Render(fmt[i + 2..], args[q + Taken(fmt[i + 1])..])
  {
    if fmt[i] != '%' {
      assert fmt[i..][1..] == fmt[i + 1..];
    } else {
      assert fmt[i..][2..] == fmt[i + 2..];
      assert args[q..][Taken(fmt[i + 1])..] == args[q + Taken(fmt[i + 1])..];
    }
  }

  /** The first n characters of the text are out; position i of the format and argument q are next. */
  predicate Rendered(text: string, n: nat, end: nat, fmt: string, i: nat, args: seq<Arg>, q: nat, full: string) {
    && n <= end <= |text| && i <= |fmt| && q <= |args| && Fits(fmt[i..], args[q..])
    && Progress(text[..n], end, Render(fmt[i..], args[q..]), full)
  }

  lemma OrdinaryStep(before: string, after: string, at: nat, n: nat, end: nat,
                     fmt: string, i: nat, args: seq<Arg>, q: nat, full: string)
    requires Rendered(before, at, end, fmt, i, args, q, full) && at < end && i < |fmt| && fmt[i] != '%'
    requires after == Put(before, at, [fmt[i]], end) && n == at + 1
    ensures Rendered(after, n, end, fmt, i + 1, args, q, full) && after[n..] == before[n..]
  {
    RenderStep(fmt, i, args, q);
    ProgressStep(before, at, end, [fmt[i]], Render(fmt[i + 1..], args[q..]), full);
  }

  lemma ConversionTakes(fmt: string, i: nat, args: seq<Arg>, q: nat)
    requires i < |fmt| && q <= |args| && Fits(fmt[i..], args[q..]) && fmt[i] == '%'
    ensures i + 2 <= |fmt| && Takes(fmt[i + 1], args[q..]) && q + Taken(fmt[i + 1]) <= |args|
  {
    RenderStep(fmt, i, args, q);
  }

  lemma ConversionStep(before: string, after: string, at: nat, n: nat, end: nat,
                       fmt: string, i: nat, args: seq<Arg>, q: nat, full: string)
    requires Rendered(before, at, end, fmt, i, args, q, full) && at < end && i < |fmt| && fmt[i] == '%'
    requires i + 2 <= |fmt| && Takes(fmt[i + 1], args[q..])
    requires var s := Piece(fmt[i + 1], args[q..]); after == Put(before, at, s, end) && n == at + Min(|s|, end - at)
    ensures Rendered(after, n, end, fmt, i + 2, args, q + Taken(fmt[i + 1]), full) && after[n..] == before[n..]
  {
    RenderStep(fmt, i, args, q);
    ProgressStep(before, at, end, Piece(fmt[i + 1], args[q..]),
                 Render(fmt[i + 2..], args[q + Taken(fmt[i + 1])..]), full);
  }

  /** One turn of the loop: an ordinary character, or a conversion. */
  method PutNext(str: array<char>, at: nat, end: nat, fmt: string, i: nat, args: seq<Arg>, q: nat, ghost full: string)
    returns (n: nat, i': nat, q': nat)
    requires Rendered(str[..], at, end, fmt, i, args, q, full) && at < end && i < |fmt|
    modifies str
    ensures at <= n && i < i' && Rendered(str[..], n, end, fmt, i', args, q', full)
    ensures str[..][n..] == old(str[..])[n..]
  {
    ghost var before := str[..];
    if fmt[i] != '%' {
      n := PutChar(str, at, fmt[i], end);
      OrdinaryStep(before, str[..], at, n, end, fmt, i, args, q, full);
      i', q' := i + 1, q;
    } else {
      ConversionTakes(fmt, i, args, q);
      n := PutPiece(str, at, fmt[i + 1], args[q..], end);
      ConversionStep(before, str[..], at, n, end, fmt, i, args, q, full);
      i', q' := i + 2, q + Taken(fmt[i + 1]);
    }
  }

  lemma RenderedStart(text: string, end: nat, fmt: string, args: seq<Arg>)
    requires Fits(fmt, args) && end <= |text|
    ensures Rendered(text, 0, end, fmt, 0, args, 0, Render(fmt, args))
  {
    assert fmt[0..] == fmt && args[0..] == args;
  }

  /** At the end of the format, or of the room, the closing NUL completes the output. */
  lemma RenderedEnd(text: string, start: string, n: nat, end: nat, fmt: string, i: nat, args: seq<Arg>, q: nat, full: string)
    requires Rendered(text, n, end, fmt, i, args, q, full) && (i == |fmt| || n == end)
    requires |text| == |start| && end < |text| && text[n..] == start[n..]
    ensures n == Min(end, |full|) && text[n := '\0'] == full[..n] + ['\0'] + start[n + 1..]
  {
    assert text[..n] == full[..n];
    assert text[n..][1..] == text[n + 1..] && start[n..][1..] == start[n + 1..];
  }

  /**
   * vsnprintf: the first size - 1 characters of the rendering, then a NUL, and nothing beyond it
   * changes. The result is the length written; the function of the same name in section 7.21.6.12
   * of ISO C returns the length of the whole rendering instead.
   */
  method Vsnprintf(str: array<char>, size: nat, fmt: string, args: seq<Arg>) returns (n: nat)
    requires Fits(fmt, args) && size <= str.Length
    modifies str
    ensures size == 0 ==> n == 0 && str[..] == old(str[..])
    ensures size > 0 ==> n == Min(size - 1, |Render(fmt, args)|)
    ensures size > 0 ==> str[..] == Render(fmt, args)[..n] + ['\0'] + old(str[n + 1..])
  {
    if size == 0 { return 0; }
    var end := size - 1;
    ghost var full, start := Render(fmt, args), str[..];
    var i: nat, q: nat := 0, 0;
    n := 0;
    RenderedStart(str[..], end, fmt, args);
    while i < |fmt| && n < end
      invariant Rendered(str[..], n, end, fmt, i, args, q, full)
      invariant str[..][n..] == start[n..]
      decreases |fmt| - i
    {
      n, i, q := PutNext(str, n, end, fmt, i, args, q, full);
    }
    RenderedEnd(str[..], start, n, end, fmt, i, args, q, full);
    ghost var text := str[..];
    str[n] := '\0';
    assert str[..] == text[n := '\0'];
    assert start[n + 1..] == old(str[n + 1..]);
  }

  /** Reading a signed number. */
  function Signed(s: string): int {
    if s != "" && s[0] == '-' then 0 - Value(s[1..], 10) else Value(s, 10)
  }

  /** The text of conversion d reads back as the number. */
  lemma DecimalReadsBack(i: int)
    ensures Signed(Decimal(i)) == i
  {
    var d := Digits(Abs(i), 10, UPPER);
    ValueOfDigits(Abs(i), 10, UPPER);
    AllDigits(Abs(i), 10, UPPER, 0);
    if i < 0 {
      assert Decimal(i)[1..] == d;
    } else {
      assert Decimal(i) == d;
    }
  }

  /** A format without percent signs is its own rendering. */
  lemma {:induction false} LiteralRendering(fmt: string, args: seq<Arg>)
    requires '%' !in fmt
    ensures Fits(fmt, args) && Render(fmt, args) == fmt
  {
    if fmt != "" {
      LiteralRendering(fmt[1..], args);
    }
  }

  // ----- what each conversion renders -----

  /** The arguments a format takes: one for each s, d or x behind a percent sign. */
  function Used(fmt: string): nat {
    if fmt == "" then 0
    else if fmt[0] != '%' then Used(fmt[1..])
    else if |fmt| == 1 then 0
    else (if fmt[1] == 's' || fmt[1] == 'd' || fmt[1] == 'x' then 1 else 0) + Used(fmt[2..])
  }

  lemma {:induction false} UsedAtMost(fmt: string, args: seq<Arg>)
    requires Fits(fmt, args)
    ensures Used(fmt) <= |args|
    decreases |fmt|
  {
    if fmt != "" {
      if fmt[0] != '%' {
        UsedAtMost(fmt[1..], args);
      } else {
        UsedAtMost(fmt[2..], args[Taken(fmt[1])..]);
      }
    }
  }

  /** The rendering, unfolded at the front. */
  lemma RenderFront(fmt: string, args: seq<Arg>)
    requires fmt != "" && (fmt[0] == '%' ==> |fmt| >= 2)
    ensures fmt[0] != '%' ==> Fits(fmt, args) == Fits(fmt[1..], args)
    ensures fmt[0] != '%' && Fits(fmt, args) ==> Render(fmt, args) == [fmt[0]] + Render(fmt[1..], args)
    ensures fmt[0] == '%' ==>
              Fits(fmt, args) == (Takes(fmt[1], args) && Fits(fmt[2..], args[Taken(fmt[1])..]))
    ensures fmt[0] == '%' && Fits(fmt, args) ==>
              Render(fmt, args) == Piece(fmt[1], args) + Render(fmt[2..], args[Taken(fmt[1])..])
  {
  }

  lemma FrontOfJoined(f: string, g: string)
    requires f != "" && (f[0] == '%' ==> |f| >= 2)
    ensures f + g != "" && (f + g)[0] == f[0] && (f + g)[1..] == f[1..] + g
    ensures |f| >= 2 ==> (f + g)[1] == f[1] && (f + g)[2..] == f[2..] + g
  {
  }

  /** Two formats joined render as their renderings joined, the second one with the arguments the
      first left over. */
  lemma {:induction false} RenderConcat(f: string, g: string, args: seq<Arg>)
    requires Fits(f, args) && Used(f) <= |args| && Fits(g, args[Used(f)..])
    ensures Fits(f + g, args) && Render(f + g, args) == Render(f, args) + Render(g, args[Used(f)..])
    decreases |f|
  {
    if f == "" {
      assert f + g == g && args[0..] == args;
    } else {
      FrontOfJoined(f, g);
      RenderFront(f, args);
      RenderFront(f + g, args);
      if f[0] != '%' {
        RenderConcat(f[1..], g, args);
        Assoc([f[0]], Render(f[1..], args), Render(g, args[Used(f)..]));
      } else {
        UsedAtMost(f[2..], args[Taken(f[1])..]);
        LeftOver(args, Taken(f[1]), Used(f[2..]));
        RenderConcat(f[2..], g, args[Taken(f[1])..]);
        Assoc(Piece(f[1], args), Render(f[2..], args[Taken(f[1])..]), Render(g, args[Used(f)..]));
      }
    }
  }

  lemma LeftOver(args: seq<Arg>, i: nat, j: nat)
    requires i + j <= |args|
    ensures args[i..][j..] == args[i + j..]
  {
  }

  lemma OneConversion(c: char, args: seq<Arg>)
    requires Takes(c, args)
    ensures Fits(['%', c], args) && Render(['%', c], args) == Piece(c, args)
  {
    assert ['%', c][2..] == "";
  }

  /** `%s` renders its string. */
  lemma StringRendering(text: string, more: seq<Arg>)
    ensures Fits("%s", [Str(text)] + more) && Render("%s", [Str(text)] + more) == text
  {
    assert "%s" == ['%', 's'];
    OneConversion('s', [Str(text)] + more);
  }

  /** In base 10 every character is a decimal digit; in base 16 one of the alphabet. */
  lemma {:induction false} DigitsInRange(n: nat, base: nat, a: string, k: nat)
    requires Base(base) && Alphabet(a) && k < |Digits(n, base, a)|
    ensures var c := Digits(n, base, a)[k];
            '0' <= c <= '9' || (base == 16 && if a == LOWER then 'a' <= c <= 'f' else 'A' <= c <= 'F')
  {
    if n >= base && k < |Digits(Quot(n, base), base, a)| {
      DigitsInRange(Quot(n, base), base, a, k);
    }
  }

  /** A number as it is written: its value, no leading zero, and digits only. */
  ghost predicate Written(s: string, n: nat, base: nat, lower: bool) {
    && s != "" && Value(s, base) == n && (s[0] == '0' ==> s == "0")
    && forall k :: 0 <= k < |s| ==>
         '0' <= s[k] <= '9' || (base == 16 && if lower then 'a' <= s[k] <= 'f' else 'A' <= s[k] <= 'F')
  }

  lemma DigitsAreWritten(n: nat, base: nat, a: string)
    requires Base(base) && Alphabet(a)
    ensures Written(Digits(n, base, a), n, base, a == LOWER)
  {
    ValueOfDigits(n, base, a);
    FirstDigit(n, base, a);
    forall k | 0 <= k < |Digits(n, base, a)|
      ensures var c := Digits(n, base, a)[k];
              '0' <= c <= '9' || (base == 16 && if a == LOWER then 'a' <= c <= 'f' else 'A' <= c <= 'F')
    {
      DigitsInRange(n, base, a, k);
    }
  }

  /** `%d` renders its int: a minus sign if it is negative, and the decimal digits of its size. */
  lemma IntRendering(i: int32, more: seq<Arg>)
    requires i > -0x8000_0000
    ensures Fits("%d", [Int(i)] + more)
    ensures var r := Render("%d", [Int(i)] + more);
            if i < 0 then r != "" && r[0] == '-' && Written(r[1..], 0 - i, 10, false) else Written(r, i, 10, false)
  {
    assert "%d" == ['%', 'd'];
    OneConversion('d', [Int(i)] + more);
    DigitsAreWritten(Abs(i), 10, UPPER);
    if i < 0 {
      assert Decimal(i)[1..] == Digits(0 - i, 10, UPPER);
    } else {
      assert Decimal(i) == Digits(i, 10, UPPER);
    }
  }

  /** `%x` renders its unsigned int in lower-case hexadecimal. */
  lemma HexRendering(u: uint32, more: seq<Arg>)
    ensures Fits("%x", [UInt(u)] + more) && Written(Render("%x", [UInt(u)] + more), u, 16, true)
  {
    assert "%x" == ['%', 'x'];
    OneConversion('x', [UInt(u)] + more);
    DigitsAreWritten(u, 16, LOWER);
  }

  /** Any other character behind a percent sign renders as itself and takes no argument. */
  lemma OtherRendering(c: char, args: seq<Arg>)
    requires c != 's' && c != 'd' && c != 'x'
    ensures Fits(['%', c], args) && Render(['%', c], args) == [c] && Used(['%', c]) == 0
  {
    OneConversion(c, args);
    assert ['%', c][2..] == "";
  }

  /** f fill characters, as many as are missing for the width, and then the digits in upper case. */
  ghost predicate Filled(s: string, f: nat, n: nat, base: nat, width: int, pad: char) {
    && f <= |s| && (forall k :: 0 <= k < f ==> s[k] == pad)
    && Written(s[f..], n, base, false) && |s| >= width && (f > 0 ==> |s| == width)
  }

  /** So print_num fills up on the left. */
  lemma PrintNumShape(num: nat, base: nat, width: int, pad: char)
    requires Base(base)
    ensures exists f :: Filled(Padded(num, base, width, pad), f, num, base, width, pad)
  {
    var d := Digits(num, base, UPPER);
    var fill := Repeat(pad, width - |d|);
    DigitsAreWritten(num, base, UPPER);
    RepeatLength(pad, width - |d|);
    RepeatIs(pad, width - |d|);
    FillAndText(fill, d, pad);
    assert Filled(Padded(num, base, width, pad), |fill|, num, base, width, pad);
  }

  lemma FillAndText(fill: string, d: string, pad: char)
    requires forall k :: 0 <= k < |fill| ==> fill[k] == pad
    ensures (fill + d)[|fill|..] == d && forall k :: 0 <= k < |fill| ==> (fill + d)[k] == pad
  {
  }

  lemma {:induction false} RepeatIs(c: char, k: int)
    ensures forall i :: 0 <= i < |Repeat(c, k)| ==> Repeat(c, k)[i] == c
  {
    if k > 0 {
      RepeatIs(c, k - 1);
    }
  }
}
