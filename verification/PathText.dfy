/** The exact text vfs_normalize_path of src/impl/kernel/fs.c leaves, for every path: which
    slashes stay in front of which names. */
module PathText {
  import opened Paths
  import opened Sequences

  /** A name kept, and the slashes in front of it. */
  datatype Part = Part(slashes: nat, name: string)

  /** The names kept, and the slashes after the last. */
  datatype Text = Text(parts: seq<Part>, slashes: nat)

  function Separate(t: Text): Text { t.(slashes := t.slashes + 1) }

  /** What a component does: `.` nothing, `..` takes back one of several slashes, or else the
      last name and the slash after it, and a name is kept behind the slashes there are. */
  function Keep(t: Text, c: string): Text {
    if c == "." then t
    else if c == ".." then
      if t.slashes >= 2 then t.(slashes := t.slashes - 1)
      else if t.slashes == 1 && t.parts != [] then Text(t.parts[..|t.parts| - 1], t.parts[|t.parts| - 1].slashes)
      else t
    else Text(t.parts + [Part(t.slashes, c)], 0)
  }

  /** All components, with a slash between each two. */
  function KeepAll(t: Text, cs: seq<string>): Text
    decreases |cs|
  {
    if cs == [] then t
    else if |cs| == 1 then Keep(t, cs[0])
    else KeepAll(Separate(Keep(t, cs[0])), cs[1..])
  }

  function Slashes(n: nat): (s: string)
    ensures |s| == n && forall k :: 0 <= k < n ==> s[k] == '/'
  {
    seq(n, _ => '/')
  }

  function Body(parts: seq<Part>): string {
    if parts == [] then ""
    else Body(parts[..|parts| - 1]) + Slashes(parts[|parts| - 1].slashes) + parts[|parts| - 1].name
  }

  function Render(t: Text): string { Body(t.parts) + Slashes(t.slashes) }

  /** The text the path stands for. */
  function TextOf(p: string): Text { KeepAll(Text([], |Lead(p)|), Comps(p)) }

  /** Names are names, and there is a slash before each but the first. */
  ghost predicate Proper(t: Text) {
    && (forall i :: 0 <= i < |t.parts| ==> t.parts[i].name != "" && SlashFree(t.parts[i].name))
    && (forall i :: 1 <= i < |t.parts| ==> t.parts[i].slashes >= 1)
  }

  /** ... and a component may come next. */
  ghost predicate Open(t: Text) { Proper(t) && (t.parts != [] ==> t.slashes >= 1) }

  // ----- one component -----

  lemma SlashesMore(n: nat)
    ensures Slashes(n) + "/" == Slashes(n + 1)
    ensures Slashes(n + 1)[..n] == Slashes(n)
  {
  }

  lemma RenderSeparate(t: Text)
    ensures Render(Separate(t)) == Render(t) + "/"
  {
    SlashesMore(t.slashes);
    Assoc(Body(t.parts), Slashes(t.slashes), "/");
  }

  lemma BodySnoc(parts: seq<Part>, part: Part)
    ensures Body(parts + [part]) == Body(parts) + Slashes(part.slashes) + part.name
  {
    assert (parts + [part])[..|parts|] == parts;
  }

  lemma RenderName(t: Text, n: string)
    requires !Special(n)
    ensures Render(Keep(t, n)) == Render(t) + n
  {
    BodySnoc(t.parts, Part(t.slashes, n));
    assert Slashes(0) == "";
  }

  /** Chopping back over a name stops at the slash before it. */
  lemma ChopName(o: string, n: string)
    requires SlashFree(n) && (o == "" || EndsInSlash(o))
    ensures Chop(o + n) == o
    decreases |n|
  {
    if n == "" {
      assert o + n == o;
    } else {
      var m := n[..|n| - 1];
      LastOfConcat(o, n);
      assert (o + n)[..|o + n| - 1] == o + m;
      ChopName(o, m);
    }
  }

  lemma SlashesEnd(s: string, n: nat)
    requires n >= 1
    ensures s + Slashes(n) != "" && EndsInSlash(s + Slashes(n))
    ensures s + Slashes(n) == s + Slashes(n - 1) + "/"
  {
    SlashesMore(n - 1);
  }

  /** The text before the last name. */
  lemma BeforeName(t: Text)
    requires Proper(t) && t.parts != []
    ensures var last := t.parts[|t.parts| - 1];
            var o := Body(t.parts[..|t.parts| - 1]) + Slashes(last.slashes);
            (o == "" || EndsInSlash(o)) && Body(t.parts) == o + last.name
  {
    var last := t.parts[|t.parts| - 1];
    if last.slashes >= 1 {
      SlashesEnd(Body(t.parts[..|t.parts| - 1]), last.slashes);
    } else {
      assert |t.parts| == 1 && t.parts[..0] == [];
    }
  }

  lemma PopSlash(s: string, n: nat)
    requires n >= 2
    ensures Pop(s + Slashes(n)) == s + Slashes(n - 1)
  {
    SlashesEnd(s, n);
    SlashesEnd(s, n - 1);
    PopOfSlashed(s + Slashes(n - 1));
  }

  lemma PopName(t: Text)
    requires Proper(t) && t.parts != []
    ensures var last := t.parts[|t.parts| - 1];
            Pop(Body(t.parts) + Slashes(1)) == Body(t.parts[..|t.parts| - 1]) + Slashes(last.slashes)
  {
    var last, b := t.parts[|t.parts| - 1], Body(t.parts);
    assert Slashes(1) == "/";
    BeforeName(t);
    PopOfSlashed(b);
    ChopName(Body(t.parts[..|t.parts| - 1]) + Slashes(last.slashes), last.name);
    assert b != "";
  }

  lemma RenderDotDot(t: Text)
    requires Open(t)
    ensures Render(Keep(t, "..")) == Pop(Render(t))
  {
    var u := Keep(t, "..");
    if t.slashes >= 2 {
      assert u == Text(t.parts, t.slashes - 1);
      PopSlash(Body(t.parts), t.slashes);
    } else if t.parts != [] {
      assert u == Text(t.parts[..|t.parts| - 1], t.parts[|t.parts| - 1].slashes);
      PopName(t);
    } else {
      assert u == t;
      RenderLead(t.slashes);
      PopShort(Render(t));
    }
  }

  lemma PopShort(s: string)
    requires |s| <= 1
    ensures Pop(s) == s
  {
  }

  lemma RenderKeep(t: Text, out: string, rest: string)
    requires Open(t) && out == Render(t) && rest != "" && rest[0] != '/'
    ensures Turn(out, rest) == (Render(Keep(t, Name(rest))), AfterName(rest))
  {
    TurnOfComponent(out, rest);
    if Name(rest) == ".." {
      RenderDotDot(t);
    } else if Name(rest) != "." {
      RenderName(t, Name(rest));
    }
  }

  lemma KeepIsProper(t: Text, c: string)
    requires Open(t) && c != "" && SlashFree(c)
    ensures Proper(Keep(t, c)) && Open(Separate(Keep(t, c)))
  {
  }

  // ----- the whole loop -----

  /** Slashes after a component: one is kept if another component follows. */
  lemma SlashesBetween(out: string, rest: string)
    requires rest == "" || rest[0] == '/'
    ensures Comps(rest) == [] <==> SkipSlashes(rest) == ""
    ensures NormFrom(out, rest) == if Comps(rest) == [] then out else NormFrom(out + "/", SkipSlashes(rest))
  {
    CompsOfSkip(rest);
    if rest != "" {
      assert Turn(out, rest) == (if SkipSlashes(rest) != "" then out + "/" else out, SkipSlashes(rest));
    }
  }

  lemma {:induction false} NormText(t: Text, out: string, rest: string)
    requires Open(t) && out == Render(t) && rest != "" && rest[0] != '/'
    ensures NormFrom(out, rest) == Render(KeepAll(t, Comps(rest))) && Proper(KeepAll(t, Comps(rest)))
    decreases |rest|
  {
    var n, after := Name(rest), AfterName(rest);
    var u := Keep(t, n);
    RenderKeep(t, out, rest);
    KeepIsProper(t, n);
    CompsAtName(rest, n, after);
    KeepAllCons(t, n, Comps(after));
    SlashesBetween(Render(u), after);
    if Comps(after) != [] {
      CompsOfSkip(after);
      RenderSeparate(u);
      NormText(Separate(u), Render(u) + "/", SkipSlashes(after));
    }
  }

  lemma KeepAllCons(t: Text, c: string, cs: seq<string>)
    ensures KeepAll(t, [c] + cs) == if cs == [] then Keep(t, c) else KeepAll(Separate(Keep(t, c)), cs)
  {
    assert ([c] + cs)[1..] == cs;
  }

  lemma RenderLead(n: nat)
    ensures Render(Text([], n)) == Slashes(n)
  {
  }

  lemma LeadIsSlashes(p: string)
    ensures Lead(p) == Slashes(|Lead(p)|)
  {
  }

  /** Before the first component the loop has written the lead. */
  lemma ToFirstComponent(p: string)
    requires Comps(p) != []
    ensures var r := SkipSlashes(p);
            && r != "" && Comps(r) == Comps(p)
            && Normalize(p) == (var q := NormFrom(Lead(p), r); if q == "" then "/" else q)
  {
    CompsOfSkip(p);
    if p != "" && p[0] == '/' {
      var s := p[1..];
      CompsOfSkip(s);
      if s != "" && s[0] == '/' {
        SlashesBetween("/", s);
        assert "/" + "/" == "//";
      }
    }
  }

  /** The text of a normalised path, for every path. */
  lemma NormalizeText(p: string)
    ensures Normalize(p) ==
            if Comps(p) == [] || Render(TextOf(p)) == "" then "/" else Render(TextOf(p))
    ensures Proper(TextOf(p))
  {
    if Comps(p) == [] {
      NormalizeDotFree(p);
    } else {
      ToFirstComponent(p);
      LeadIsSlashes(p);
      RenderLead(|Lead(p)|);
      NormText(Text([], |Lead(p)|), Lead(p), SkipSlashes(p));
    }
  }

  // ----- two slashes in a row -----

  predicate DoubleSlash(s: string) { exists k :: 0 <= k < |s| - 1 && SlashPair(s, k) }

  predicate SlashPair(s: string, k: int) { 0 <= k < |s| - 1 && s[k] == '/' && s[k + 1] == '/' }

  /** Some gap holds more than one. */
  predicate Gapped(t: Text) {
    t.slashes >= 2 || exists i :: 0 <= i < |t.parts| && t.parts[i].slashes >= 2
  }

  lemma PairsOfConcat(a: string, b: string)
    requires a == "" || a[|a| - 1] != '/' || b == "" || b[0] != '/'
    ensures DoubleSlash(a + b) <==> DoubleSlash(a) || DoubleSlash(b)
  {
    var s := a + b;
    if DoubleSlash(a) {
      var k :| 0 <= k < |a| - 1 && SlashPair(a, k);
      assert SlashPair(s, k);
    }
    if DoubleSlash(b) {
      var k :| 0 <= k < |b| - 1 && SlashPair(b, k);
      assert SlashPair(s, |a| + k);
    }
    if DoubleSlash(s) {
      var k :| 0 <= k < |s| - 1 && SlashPair(s, k);
      if k < |a| - 1 {
        assert SlashPair(a, k);
      } else if k >= |a| {
        assert SlashPair(b, k - |a|);
      }
    }
  }

  lemma PairsOfSlashes(n: nat)
    ensures DoubleSlash(Slashes(n)) <==> n >= 2
  {
    if n >= 2 {
      assert SlashPair(Slashes(n), 0);
    }
  }

  lemma PairsOfName(n: string)
    requires SlashFree(n)
    ensures !DoubleSlash(n)
  {
  }

  lemma EndOfBody(t: Text)
    requires Proper(t) && t.parts != []
    ensures Body(t.parts) != "" && !EndsInSlash(Body(t.parts))
  {
    var last := t.parts[|t.parts| - 1];
    LastOfConcat(Body(t.parts[..|t.parts| - 1]) + Slashes(last.slashes), last.name);
  }

  lemma {:induction false} PairsOfBody(parts: seq<Part>)
    requires Proper(Text(parts, 0))
    ensures DoubleSlash(Body(parts)) <==> exists i :: 0 <= i < |parts| && parts[i].slashes >= 2
    decreases |parts|
  {
    if parts != [] {
      var init, last := parts[..|parts| - 1], parts[|parts| - 1];
      assert Proper(Text(init, 0));
      PairsOfBody(init);
      if init != [] {
        EndOfBody(Text(init, 0));
      }
      PairsOfConcat(Body(init), Slashes(last.slashes));
      PairsOfSlashes(last.slashes);
      PairsOfConcat(Body(init) + Slashes(last.slashes), last.name);
      PairsOfName(last.name);
      assert last.slashes >= 2 ==> parts[|parts| - 1].slashes >= 2;
    }
  }

  /** Exactly when a result holds two slashes in a row. */
  lemma DoubleSlashIff(p: string)
    requires Comps(p) != []
    ensures DoubleSlash(Normalize(p)) <==> Gapped(TextOf(p))
  {
    NormalizeText(p);
    var t := TextOf(p);
    PairsOfBody(t.parts);
    if t.parts != [] {
      EndOfBody(t);
    }
    PairsOfConcat(Body(t.parts), Slashes(t.slashes));
    PairsOfSlashes(t.slashes);
  }

  // ----- idempotence -----

  /** No slash but one between each two names, and at most two in front. */
  predicate Settled(t: Text) {
    if t.parts == [] then t.slashes <= 1
    else t.slashes == 0 && t.parts[0].slashes <= 2 && forall i :: 1 <= i < |t.parts| ==> t.parts[i].slashes == 1
  }

  function NamesOf(parts: seq<Part>): seq<string> { seq(|parts|, i requires 0 <= i < |parts| => parts[i].name) }

  lemma NamesSnoc(parts: seq<Part>)
    requires parts != []
    ensures NamesOf(parts) == NamesOf(parts[..|parts| - 1]) + [parts[|parts| - 1].name]
  {
  }

  lemma {:induction false} CompsOfBody(parts: seq<Part>)
    requires Proper(Text(parts, 0))
    ensures Comps(Body(parts)) == NamesOf(parts)
    decreases |parts|
  {
    if parts == [] {
      assert Comps("") == [];
    } else {
      var init, last := parts[..|parts| - 1], parts[|parts| - 1];
      assert Proper(Text(init, 0));
      CompsOfBody(init);
      CompsOfSlashed(Body(init), last.slashes);
      BeforeName(Text(parts, 0));
      CompsOfConcat(Body(init) + Slashes(last.slashes), last.name);
      CompsOfName(last.name);
      NamesSnoc(parts);
    }
  }

  lemma {:induction false} CompsOfSlashed(s: string, n: nat)
    ensures Comps(s + Slashes(n)) == Comps(s)
  {
    if n == 0 {
      assert s + Slashes(0) == s;
    } else {
      SlashesEnd(s, n);
      CompsOfSlashed(s, n - 1);
      CompsOfSlash(s + Slashes(n - 1));
    }
  }

  function NameLengths(parts: seq<Part>): nat {
    if parts == [] then 0 else NameLengths(parts[..|parts| - 1]) + |parts[|parts| - 1].name|
  }

  function SlashCount(parts: seq<Part>): nat {
    if parts == [] then 0 else SlashCount(parts[..|parts| - 1]) + parts[|parts| - 1].slashes
  }

  lemma {:induction false} BodyLength(parts: seq<Part>)
    ensures |Body(parts)| == NameLengths(parts) + SlashCount(parts)
    decreases |parts|
  {
    if parts != [] {
      BodyLength(parts[..|parts| - 1]);
    }
  }

  lemma {:induction false} JoinSnoc(cs: seq<string>, c: string)
    requires cs != []
    ensures Join(cs + [c]) == Join(cs) + "/" + c
    decreases |cs|
  {
    if |cs| == 1 {
      assert (cs + [c])[1..] == [c];
    } else {
      JoinSnoc(cs[1..], c);
      assert (cs + [c])[1..] == cs[1..] + [c];
      assert Join(cs) == cs[0] + "/" + Join(cs[1..]);
      assert Join(cs + [c]) == cs[0] + "/" + Join(cs[1..] + [c]);
    }
  }

  lemma {:induction false} JoinLength(parts: seq<Part>)
    requires parts != []
    ensures |Join(NamesOf(parts))| == NameLengths(parts) + |parts| - 1
    decreases |parts|
  {
    NamesSnoc(parts);
    var init := parts[..|parts| - 1];
    if init == [] {
      assert NamesOf(parts) == [parts[0].name];
      assert NameLengths(init) == 0;
    } else {
      JoinLength(init);
      JoinSnoc(NamesOf(init), parts[|parts| - 1].name);
    }
  }

  lemma {:induction false} SettledBody(parts: seq<Part>)
    requires parts != [] && Proper(Text(parts, 0)) && Settled(Text(parts, 0))
    ensures Body(parts) == Slashes(parts[0].slashes) + Join(NamesOf(parts))
    decreases |parts|
  {
    NamesSnoc(parts);
    var init, last := parts[..|parts| - 1], parts[|parts| - 1];
    if init == [] {
      assert NamesOf(parts) == [last.name] && Body(init) == "";
      assert Body(parts) == "" + Slashes(last.slashes) + last.name;
    } else {
      assert Proper(Text(init, 0)) && Settled(Text(init, 0));
      SettledBody(init);
      JoinSnoc(NamesOf(init), last.name);
      assert Slashes(1) == "/";
    }
  }

  /** Between n names there are at least n - 1 slashes, and exactly as many if none is doubled. */
  lemma {:induction false} SlashesAtLeast(parts: seq<Part>)
    requires parts != [] && Proper(Text(parts, 0))
    ensures SlashCount(parts) >= parts[0].slashes + |parts| - 1
    ensures SlashCount(parts) == parts[0].slashes + |parts| - 1 ==> forall i :: 1 <= i < |parts| ==> parts[i].slashes == 1
    decreases |parts|
  {
    var init := parts[..|parts| - 1];
    if init == [] {
      assert SlashCount(init) == 0;
    } else {
      assert Proper(Text(init, 0));
      SlashesAtLeast(init);
      assert forall i :: 1 <= i < |init| ==> init[i] == parts[i];
    }
  }

  /** The slashes a second pass leaves in front. */
  lemma LeadOfText(t: Text)
    requires Proper(t) && t.parts != []
    ensures |Lead(Render(t))| == if t.parts[0].slashes >= 2 then 2 else t.parts[0].slashes
  {
    StartOfBody(t.parts);
    var s := t.parts[0].slashes;
    var q := Render(t);
    assert forall k :: 0 <= k < |Body(t.parts)| ==> q[k] == Body(t.parts)[k];
  }

  lemma {:induction false} StartOfBody(parts: seq<Part>)
    requires parts != [] && Proper(Text(parts, 0))
    ensures |Body(parts)| > parts[0].slashes && Body(parts)[parts[0].slashes] != '/'
    ensures forall k :: 0 <= k < parts[0].slashes ==> Body(parts)[k] == '/'
    decreases |parts|
  {
    var init, last := parts[..|parts| - 1], parts[|parts| - 1];
    if init == [] {
      StartOfOne(last.slashes, last.name);
    } else {
      assert Proper(Text(init, 0));
      StartOfBody(init);
      StartKept(Body(init), Slashes(last.slashes), last.name, parts[0].slashes);
    }
  }

  lemma StartOfOne(n: nat, name: string)
    requires name != "" && SlashFree(name)
    ensures var s := "" + Slashes(n) + name;
            |s| > n && s[n] != '/' && forall k :: 0 <= k < n ==> s[k] == '/'
  {
  }

  lemma StartKept(s: string, x: string, y: string, n: nat)
    requires |s| > n && s[n] != '/' && forall k :: 0 <= k < n ==> s[k] == '/'
    ensures |s + x + y| > n && (s + x + y)[n] != '/' && forall k :: 0 <= k < n ==> (s + x + y)[k] == '/'
  {
  }

  /** A text is what a pass makes of it exactly if it is settled. */
  lemma SettledIff(t: Text)
    requires Proper(t) && t.parts != []
    ensures Render(t) == Lead(Render(t)) + Join(NamesOf(t.parts)) <==> Settled(t)
  {
    var q, parts := Render(t), t.parts;
    LeadOfText(t);
    LeadIsSlashes(q);
    if Settled(t) {
      SettledBody(parts);
      assert q == Body(parts);
    }
    if q == Lead(q) + Join(NamesOf(parts)) {
      BodyLength(parts);
      JoinLength(parts);
      SlashesAtLeast(parts);
    }
  }

  /** Exactly when a second pass changes nothing: for every path. */
  lemma IdempotentIff(p: string)
    ensures Normalize(Normalize(p)) == Normalize(p) <==> Comps(p) == [] || Settled(TextOf(p))
  {
    NormalizeText(p);
    NormalizeIsDotFree(p);
    NormalizeDotFree(Normalize(p));
    if Comps(p) == [] {
      assert Comps("/") == Comps("") == [];
    } else {
      IdempotentOfText(p, TextOf(p));
    }
  }

  lemma IdempotentOfText(p: string, t: Text)
    requires Proper(t) && Normalize(p) == if Render(t) == "" then "/" else Render(t)
    ensures Normalize(Normalize(p)) == Normalize(p) <==> Settled(t)
  {
    var q := Normalize(p);
    NormalizeIsDotFree(p);
    NormalizeDotFree(q);
    CompsOfBody(t.parts);
    CompsOfSlashed(Body(t.parts), t.slashes);
    assert Comps("/") == Comps("") == [];
    if t.parts == [] {
      RenderLead(t.slashes);
      OnlySlashes(t.slashes);
    } else {
      EndOfBody(t);
      SettledIff(t);
    }
  }

  lemma OnlySlashes(n: nat)
    ensures (if Slashes(n) == "" then "/" else Slashes(n)) == "/" <==> n <= 1
  {
    assert |Slashes(n)| == n;
    assert n == 1 ==> Slashes(1) == "/";
  }

  // ----- the gaps, told by the components -----

  /** The text before a component and the stack of names: the gap after the last name kept is
      one slash exactly after an ordinary component. */
  ghost predicate Linked(t: Text, st: Stack) {
    && Open(t) && NamesOf(t.parts) == st.names
    && (t.parts == [] ==> !st.ordinary)
    && (t.parts != [] ==> (st.ordinary <==> t.slashes == 1))
  }

  lemma NamesWithout(parts: seq<Part>)
    requires parts != []
    ensures NamesOf(parts)[..|parts| - 1] == NamesOf(parts[..|parts| - 1])
  {
  }

  lemma NamesWith(parts: seq<Part>, part: Part)
    ensures NamesOf(parts + [part]) == NamesOf(parts) + [part.name]
  {
    assert (parts + [part])[..|parts|] == parts;
    NamesSnoc(parts + [part]);
  }

  lemma StepIsLinked(t: Text, st: Stack, c: string)
    requires Linked(t, st) && c != "" && SlashFree(c)
    ensures NamesOf(Keep(t, c).parts) == Push(st, c).names
    ensures Linked(Separate(Keep(t, c)), Push(st, c))
  {
    KeepIsProper(t, c);
    if c == ".." && t.parts != [] {
      NamesWithout(t.parts);
    } else if !Special(c) {
      NamesWith(t.parts, Part(t.slashes, c));
    }
  }

  lemma {:induction false} KeepAllLinked(t: Text, st: Stack, cs: seq<string>, c: string)
    requires Linked(t, st) && Names(cs) && c != "" && SlashFree(c)
    ensures exists u :: Linked(u, Fold(st, cs)) && KeepAll(t, cs + [c]) == Keep(u, c)
    decreases |cs|
  {
    if cs == [] {
      assert [] + [c] == [c];
      assert Linked(t, Fold(st, cs)) && KeepAll(t, cs + [c]) == Keep(t, c);
    } else {
      StepIsLinked(t, st, cs[0]);
      assert cs + [c] == [cs[0]] + (cs[1..] + [c]);
      KeepAllCons(t, cs[0], cs[1..] + [c]);
      KeepAllLinked(Separate(Keep(t, cs[0])), Push(st, cs[0]), cs[1..], c);
    }
  }

  /** The gap before a name that is kept behind others is one slash exactly if the component
      right before it is ordinary. */
  lemma GapIsSingleIff(lead: nat, before: seq<string>, n: string)
    requires Names(before) && n != "" && SlashFree(n) && !Special(n) && Fold(EMPTY, before).names != []
    ensures var parts := KeepAll(Text([], lead), before + [n]).parts;
            && NamesOf(parts) == Fold(EMPTY, before).names + [n]
            && (parts[|parts| - 1].slashes == 1 <==> !Special(before[|before| - 1]))
  {
    assert Linked(Text([], lead), EMPTY);
    KeepAllLinked(Text([], lead), EMPTY, before, n);
    var u :| Linked(u, Fold(EMPTY, before)) && KeepAll(Text([], lead), before + [n]) == Keep(u, n);
    NamesWith(u.parts, Part(u.slashes, n));
    assert before != [];
    LastPushed(EMPTY, before);
  }

  lemma {:induction false} LastPushed(st: Stack, cs: seq<string>)
    requires cs != []
    ensures Fold(st, cs).ordinary <==> !Special(cs[|cs| - 1])
    decreases |cs|
  {
    if |cs| == 1 {
      assert Fold(st, cs) == Push(st, cs[0]);
    } else {
      LastPushed(Push(st, cs[0]), cs[1..]);
    }
  }

  // ----- absolute results -----

  /** Some of the components, from the first on, leave no name. */
  ghost predicate Empties(st: Stack, cs: seq<string>) {
    exists k :: 1 <= k <= |cs| && Fold(st, cs[..k]).names == []
  }

  lemma EmptiesStep(st: Stack, cs: seq<string>)
    requires cs != []
    ensures Empties(st, cs) <==> Push(st, cs[0]).names == [] || Empties(Push(st, cs[0]), cs[1..])
  {
    var u, rest := Push(st, cs[0]), cs[1..];
    forall k | 1 <= k <= |cs|
      ensures Fold(st, cs[..k]) == Fold(u, rest[..k - 1])
    {
      assert cs[..k][1..] == rest[..k - 1];
    }
    if Push(st, cs[0]).names == [] {
      assert Fold(st, cs[..1]) == Fold(u, rest[..0]) == u;
    }
    if Empties(u, rest) {
      var k :| 1 <= k <= |rest| && Fold(u, rest[..k]).names == [];
      assert Fold(st, cs[..k + 1]).names == [];
    }
    if Empties(st, cs) {
      var k :| 1 <= k <= |cs| && Fold(st, cs[..k]).names == [];
      assert k > 1 ==> Fold(u, rest[..k - 1]).names == [];
    }
  }

  /** A slash in front, or one to come. */
  predicate Slashed(t: Text) { if t.parts == [] then t.slashes >= 1 else t.parts[0].slashes >= 1 }

  lemma {:induction false} SlashedIff(t: Text, st: Stack, cs: seq<string>)
    requires Linked(t, st) && Names(cs) && cs != []
    ensures var r := KeepAll(t, cs);
            r.parts == [] || r.parts[0].slashes >= 1 <==> Slashed(t) || Empties(st, cs)
    decreases |cs|
  {
    var c := cs[0];
    StepIsLinked(t, st, c);
    EmptiesStep(st, cs);
    if |cs| > 1 {
      SlashedIff(Separate(Keep(t, c)), Push(st, c), cs[1..]);
    }
  }

  /** Exactly when a result is absolute: when the path is, or when some of its components,
      from the first on, leave no name. */
  lemma AbsoluteIff(p: string)
    ensures Normalize(p)[0] == '/' <==> p == "" || p[0] == '/' || Empties(EMPTY, Comps(p))
  {
    NormalizeText(p);
    var t := TextOf(p);
    if Comps(p) == [] {
      CompsOfSkip(p);
    } else {
      CompsAreNames(p);
      SlashedIff(Text([], |Lead(p)|), EMPTY, Comps(p));
      FrontOfText(t);
    }
  }

  lemma FrontOfText(t: Text)
    requires Proper(t)
    ensures Render(t) == "" || Render(t)[0] == '/' <==> t.parts == [] || t.parts[0].slashes >= 1
  {
    if t.parts != [] {
      StartOfBody(t.parts);
    } else {
      RenderLead(t.slashes);
    }
  }

  /** A relative path behind a dot becomes absolute. */
  lemma DotMakesAbsolute(n: string)
    requires n != "" && SlashFree(n) && !Special(n)
    ensures Normalize("./" + n) == "/" + n
  {
    var p := "./" + n;
    CompsOfDotted(n);
    NormalizeText(p);
    TextOfDottedName(n);
    RenderOne(1, n);
    assert Slashes(1) == "/";
  }

  lemma TextOfDottedName(n: string)
    requires !Special(n)
    ensures KeepAll(Text([], 0), ["."] + [n]) == Text([Part(1, n)], 0)
  {
    KeepAllCons(Text([], 0), ".", [n]);
  }

  lemma RenderOne(s: nat, n: string)
    ensures Render(Text([Part(s, n)], 0)) == Slashes(s) + n
  {
    BodySnoc([], Part(s, n));
    assert [] + [Part(s, n)] == [Part(s, n)];
  }

  lemma CompsOfDotted(n: string)
    requires n != "" && SlashFree(n)
    ensures Comps("./" + n) == ["."] + [n]
  {
    var p := "./" + n;
    NameUnique(p, ".");
    assert AfterName(p) == "/" + n;
    CompsAtName(p, ".", "/" + n);
    assert ("/" + n)[1..] == n;
    CompsOfName(n);
  }

  lemma TextOfDotted(a: string, b: string)
    requires !Special(a) && !Special(b)
    ensures KeepAll(Text([], 0), [a, ".", b]) == Text([Part(0, a), Part(2, b)], 0)
  {
    assert [a, ".", b] == [a] + [".", b] && [".", b] == ["."] + [b];
    KeepAllCons(Text([], 0), a, [".", b]);
    KeepAllCons(Text([Part(0, a)], 1), ".", [b]);
  }

  lemma BodyOfTwo(a: string, n: nat, b: string)
    ensures Body([Part(0, a), Part(n, b)]) == a + Slashes(n) + b
  {
    BodySnoc([], Part(0, a));
    BodySnoc([Part(0, a)], Part(n, b));
    assert [] + [Part(0, a)] == [Part(0, a)];
  }

  /** A dot between two names leaves two slashes, and a second pass one. */
  lemma DotLeavesDouble(a: string, b: string)
    requires Names([a, ".", b]) && !Special(a) && !Special(b)
    ensures Normalize(Join([a, ".", b])) == a + "//" + b
    ensures Normalize(a + "//" + b) == a + "/" + b
  {
    var cs := [a, ".", b];
    CompsOfJoin(cs);
    NormalizeText(Join(cs));
    JoinStart(cs);
    TextOfDotted(a, b);
    BodyOfTwo(a, 2, b);
    assert Slashes(2) == "//";
    assert cs[0] == a && cs[2] == b;
    SecondPass(a, b);
  }

  /** A `..` takes back the name before it, and leaves the slash. */
  lemma DotDotPops(a: string, b: string, c: string)
    requires Names([a, b, "..", c]) && !Special(a) && !Special(b) && !Special(c)
    ensures Normalize(Join([a, b, "..", c])) == a + "//" + c
  {
    var cs := [a, b, "..", c];
    CompsOfJoin(cs);
    NormalizeText(Join(cs));
    JoinStart(cs);
    TextOfPopped(a, b, c);
    BodyOfTwo(a, 2, c);
    assert Slashes(2) == "//";
    assert cs[0] == a;
  }

  lemma TextOfPopped(a: string, b: string, c: string)
    requires !Special(a) && !Special(b) && !Special(c)
    ensures KeepAll(Text([], 0), [a, b, "..", c]) == Text([Part(0, a), Part(2, c)], 0)
  {
    var t1, t2, t3 := Text([Part(0, a)], 1), Text([Part(0, a), Part(1, b)], 1), Text([Part(0, a)], 2);
    assert [a, b, "..", c] == [a] + [b, "..", c] && [b, "..", c] == [b] + ["..", c] && ["..", c] == [".."] + [c];
    KeepAllCons(Text([], 0), a, [b, "..", c]);
    assert Separate(Keep(Text([], 0), a)) == t1;
    KeepAllCons(t1, b, ["..", c]);
    assert Separate(Keep(t1, b)) == t2;
    KeepAllCons(t2, "..", [c]);
    assert t2.parts[..1] == [Part(0, a)];
    assert Separate(Keep(t2, "..")) == t3;
    assert Keep(t3, c) == Text([Part(0, a), Part(2, c)], 0);
  }

  /** Slashes in front of a name: up to two stay. */
  lemma SlashesBefore(n: string, k: nat)
    requires n != "" && SlashFree(n) && !Special(n)
    ensures Normalize(Slashes(k) + n) == Slashes(if k < 2 then k else 2) + n
  {
    CompsBehindSlashes(n, k);
    OneName(Slashes(k) + n, n);
    LeadIsSlashes(Slashes(k) + n);
  }

  /** Slashes behind it go. */
  lemma SlashesBehind(n: string, k: nat)
    requires n != "" && SlashFree(n) && !Special(n)
    ensures Normalize(n + Slashes(k)) == n
  {
    CompsOfName(n);
    CompsOfSlashed(n, k);
    OneName(n + Slashes(k), n);
    assert Lead(n + Slashes(k)) == "";
  }

  lemma {:induction false} CompsBehindSlashes(n: string, k: nat)
    requires n != "" && SlashFree(n)
    ensures Comps(Slashes(k) + n) == [n]
  {
    if k == 0 {
      assert Slashes(0) + n == n;
      CompsOfName(n);
    } else {
      CompsBehindSlashes(n, k - 1);
      assert (Slashes(k) + n)[1..] == Slashes(k - 1) + n;
    }
  }

  lemma OneName(p: string, n: string)
    requires Comps(p) == [n] && !Special(n)
    ensures Normalize(p) == Lead(p) + n
  {
    NormalizeDotFree(p);
  }

  lemma SecondPass(a: string, b: string)
    requires a != "" && SlashFree(a) && b != "" && SlashFree(b) && !Special(a) && !Special(b)
    ensures Normalize(a + "//" + b) == a + "/" + b
  {
    var q := a + "//" + b;
    CompsOfDoubled(a, b);
    NormalizeDotFree(q);
    assert Lead(q) == "";
    assert [a, b][1..] == [b];
  }

  lemma CompsOfDoubled(a: string, b: string)
    requires a != "" && SlashFree(a) && b != "" && SlashFree(b)
    ensures Comps(a + "//" + b) == [a, b]
  {
    Assoc(a, "//", b);
    NameAtFront(a, "//" + b);
    CompsAtName(a + ("//" + b), a, "//" + b);
    assert ("//" + b)[1..] == "/" + b && ("/" + b)[1..] == b;
    CompsOfName(b);
  }

  lemma NameAtFront(a: string, r: string)
    requires a != "" && SlashFree(a) && (r == "" || r[0] == '/')
    ensures a + r != "" && (a + r)[0] != '/' && Name(a + r) == a && AfterName(a + r) == r
  {
    NameUnique(a + r, a);
  }
}
