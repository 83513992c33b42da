/** vfs_normalize_path of src/impl/kernel/fs.c as a function on strings, and what it
    means for the components of a path. */
module Paths {
  import opened Sequences

  // ----- components -----

  /** The slash-free text at the front. */
  function Name(s: string): (n: string)
    ensures |n| <= |s| && n == s[..|n|]
    ensures forall k :: 0 <= k < |n| ==> n[k] != '/'
    ensures |n| < |s| ==> s[|n|] == '/'
    ensures n == "" <==> s == "" || s[0] == '/'
  {
    if s == "" || s[0] == '/' then "" else [s[0]] + Name(s[1..])
  }

  function AfterName(s: string): (r: string)
    ensures |r| + |Name(s)| == |s| && s == Name(s) + r
    ensures r != "" ==> r[0] == '/'
  {
    s[|Name(s)|..]
  }

  function SkipSlashes(s: string): (r: string)
    ensures |r| <= |s| && r == s[|s| - |r|..]
    ensures r != "" ==> r[0] != '/'
    ensures s != "" && s[0] == '/' ==> |r| < |s|
  {
    if s != "" && s[0] == '/' then SkipSlashes(s[1..]) else s
  }

  /** The non-empty components. */
  function Comps(s: string): seq<string>
    decreases |s|
  {
    if s == "" then []
    else if s[0] == '/' then Comps(s[1..])
    else [Name(s)] + Comps(AfterName(s))
  }

  predicate EndsInSlash(s: string) { s != "" && s[|s| - 1] == '/' }

  predicate SlashFree(s: string) { forall k :: 0 <= k < |s| ==> s[k] != '/' }

  lemma {:induction false} NameOfConcat(a: string, b: string)
    requires a != "" && (!SlashFree(a) || b == "" || b[0] == '/')
    ensures Name(a + b) == Name(a) && AfterName(a + b) == AfterName(a) + b
  {
    var n := Name(a);
    NameUnique(a + b, n);
    if |n| == |a| {
      assert SlashFree(a);
    }
  }

  lemma {:induction false} NameUnique(s: string, n: string)
    requires n <= s && SlashFree(n) && (|n| < |s| ==> s[|n|] == '/')
    ensures Name(s) == n
  {
    var m := Name(s);
    if |m| < |n| {
      assert false;
    }
    if |n| < |m| {
      assert false;
    }
  }

  /** There is a slash, or an end, where a and b meet. */
  predicate Meet(a: string, b: string) { a == "" || EndsInSlash(a) || b == "" || b[0] == '/' }

  lemma MeetInside(a: string, b: string)
    requires a != "" && Meet(a, b)
    ensures a[0] == '/' ==> Meet(a[1..], b)
    ensures a[0] != '/' ==> Meet(AfterName(a), b) && (!SlashFree(a) || b == "" || b[0] == '/')
  {
    if EndsInSlash(a) {
      assert a[|a| - 1] == '/';
      assert |a| > 1 ==> a[1..][|a| - 2] == '/';
    }
  }

  lemma CompsAtName(s: string, n: string, after: string)
    requires s != "" && s[0] != '/' && n == Name(s) && after == AfterName(s)
    ensures Comps(s) == [n] + Comps(after)
  {
  }

  /** Components split wherever there is a slash. */
  lemma {:induction false} CompsOfConcat(a: string, b: string)
    requires Meet(a, b)
    ensures Comps(a + b) == Comps(a) + Comps(b)
    decreases |a|
  {
    if a == "" {
      assert a + b == b;
    } else if a[0] == '/' {
      MeetInside(a, b);
      assert (a + b)[1..] == a[1..] + b;
      CompsOfConcat(a[1..], b);
    } else {
      MeetInside(a, b);
      var n, after := Name(a), AfterName(a);
      NameOfConcat(a, b);
      CompsAtName(a + b, n, after + b);
      CompsAtName(a, n, after);
      CompsOfConcat(after, b);
      ConsConcat(n, Comps(after), Comps(b));
    }
  }

  lemma ConsConcat(n: string, xs: seq<string>, ys: seq<string>)
    ensures [n] + (xs + ys) == ([n] + xs) + ys
  {
  }

  lemma CompsOfName(n: string)
    requires SlashFree(n) && n != ""
    ensures Comps(n) == [n]
  {
    NameUnique(n, n);
    assert AfterName(n) == "";
  }

  lemma CompsOfSlash(out: string)
    ensures Comps(out + "/") == Comps(out)
  {
    CompsOfConcat(out, "/");
    assert Comps("/") == Comps("") == [];
  }

  lemma {:induction false} CompsOfSkip(s: string)
    ensures Comps(SkipSlashes(s)) == Comps(s)
  {
    if s != "" && s[0] == '/' {
      CompsOfSkip(s[1..]);
    }
  }

  // ----- the rewriting loop -----

  predicate DotHere(s: string) { s != "" && s[0] == '.' && (|s| == 1 || s[1] == '/') }

  predicate DotDotHere(s: string) { |s| >= 2 && s[0] == '.' && s[1] == '.' && (|s| == 2 || s[2] == '/') }

  /** `while (np > normalized && np[-1] != '/') np--` */
  function Chop(out: string): (r: string)
    ensures r <= out && (r == "" || EndsInSlash(r)) && SlashFree(out[|r|..])
  {
    if out != "" && out[|out| - 1] != '/' then
      var r := Chop(out[..|out| - 1]);
      assert out[|r|..] == out[..|out| - 1][|r|..] + [out[|out| - 1]];
      r
    else out
  }

  /** What `..` does to the text written so far. */
  function Pop(out: string): (r: string)
    ensures r <= out
  {
    if |out| > 1 then Chop(out[..|out| - 1]) else out
  }

  /** One turn of the loop, on the text written and the text left to read. */
  function Turn(out: string, rest: string): (r: (string, string))
    requires rest != ""
    ensures |r.1| < |rest| && |r.0| + |r.1| <= |out| + |rest|
  {
    if rest[0] == '/' then
      var s := SkipSlashes(rest);
      (if s != "" then out + "/" else out, s)
    else if DotHere(rest) then (out, rest[1..])
    else if DotDotHere(rest) then (Pop(out), rest[2..])
    else (out + Name(rest), AfterName(rest))
  }

  /** The loop. */
  function NormFrom(out: string, rest: string): (r: string)
    ensures |r| <= |out| + |rest|
    decreases |rest|
  {
    if rest == "" then out
    else
      var (o, s) := Turn(out, rest);
      NormFrom(o, s)
  }

  function Normalize(p: string): (r: string)
    ensures r != "" && |r| <= if |p| > 1 then |p| else 1
  {
    var r := if p != "" && p[0] == '/' then NormFrom("/", p[1..]) else NormFrom("", p);
    if r == "" then "/" else r
  }

  // ----- the meaning of `.` and `..` -----

  predicate Special(c: string) { c == "." || c == ".." }

  /** The names kept, and whether the last component read was an ordinary one. */
  datatype Stack = Stack(names: seq<string>, ordinary: bool)

  function Push(st: Stack, c: string): Stack {
    if c == "." then st.(ordinary := false)
    else if c == ".." then Stack(if st.ordinary && st.names != [] then st.names[..|st.names| - 1] else st.names, false)
    else Stack(st.names + [c], true)
  }

  function Fold(st: Stack, cs: seq<string>): Stack
    decreases |cs|
  {
    if cs == [] then st else Fold(Push(st, cs[0]), cs[1..])
  }

  const EMPTY: Stack := Stack([], false)

  /** The text written so far stands for a stack: at the start of a component it ends
      in a slash, and a name stands right before that slash exactly after an ordinary
      component; elsewhere it ends in a name exactly then. */
  ghost predicate Stands(out: string, rest: string, st: Stack) {
    && Comps(out) == st.names
    && if rest != "" && rest[0] != '/'
       then (out == "" || EndsInSlash(out)) && (st.ordinary <==> |out| >= 2 && out[|out| - 2] != '/')
       else st.ordinary <==> out != "" && !EndsInSlash(out)
  }

  lemma SpecialNames(s: string)
    ensures DotHere(s) <==> Name(s) == "."
    ensures DotDotHere(s) <==> Name(s) == ".."
  {
    if DotHere(s) {
      NameUnique(s, ".");
    }
    if DotDotHere(s) {
      NameUnique(s, "..");
    }
  }

  lemma ChopLastName(o: string)
    requires o != "" && !EndsInSlash(o)
    ensures var n := o[|Chop(o)|..]; Comps(o) == Comps(Chop(o)) + [n]
  {
    var x := Chop(o);
    var n := o[|x|..];
    assert o == x + n;
    CompsOfConcat(x, n);
    CompsOfName(n);
  }

  lemma PopOfSlashed(o: string)
    ensures Pop(o + "/") == if o == "" then "/" else Chop(o)
    ensures EndsInSlash(o) ==> Chop(o) == o
  {
    assert (o + "/")[..|o + "/"| - 1] == o;
  }

  /** `..` removes the last name exactly when the text ends in a name and a slash. */
  lemma PopNames(out: string)
    requires out == "" || EndsInSlash(out)
    ensures Pop(out) == "" || EndsInSlash(Pop(out))
    ensures Comps(Pop(out)) ==
            if |out| >= 2 && out[|out| - 2] != '/' && Comps(out) != [] then Comps(out)[..|Comps(out)| - 1] else Comps(out)
  {
    if out != "" {
      var o := out[..|out| - 1];
      assert out == o + "/";
      EndOfSlashed(o);
      PopOfSlashed(o);
      if o != "" {
        CompsOfSlash(o);
        if !EndsInSlash(o) {
          ChopLastName(o);
        }
      }
    }
  }

  lemma StandsAfterSlash(out: string, rest: string, st: Stack)
    requires rest != "" && rest[0] == '/' && Stands(out, rest, st)
    ensures var r := SkipSlashes(rest); Stands(if r != "" then out + "/" else out, r, st)
  {
    if SkipSlashes(rest) != "" {
      CompsOfSlash(out);
      EndOfSlashed(out);
    }
  }

  lemma EndOfSlashed(out: string)
    ensures EndsInSlash(out + "/")
    ensures |out + "/"| >= 2 && (out + "/")[|out + "/"| - 2] != '/' <==> out != "" && !EndsInSlash(out)
  {
    if out != "" {
      assert (out + "/")[|out + "/"| - 2] == out[|out| - 1];
    }
  }

  lemma StandsAfterDot(out: string, rest: string, st: Stack)
    requires rest != "" && rest[0] != '/' && Stands(out, rest, st)
    ensures Stands(out, AfterName(rest), Push(st, "."))
  {
  }

  lemma StandsAfterDotDot(out: string, rest: string, st: Stack)
    requires rest != "" && rest[0] != '/' && Stands(out, rest, st)
    ensures Stands(Pop(out), AfterName(rest), Push(st, ".."))
  {
    PopNames(out);
  }

  lemma StandsAfterName(out: string, rest: string, st: Stack)
    requires rest != "" && rest[0] != '/' && Stands(out, rest, st) && !Special(Name(rest))
    ensures Stands(out + Name(rest), AfterName(rest), Push(st, Name(rest)))
  {
    CompsOfConcat(out, Name(rest));
    CompsOfName(Name(rest));
    LastOfConcat(out, Name(rest));
  }

  lemma LastOfConcat(a: string, n: string)
    requires n != "" && SlashFree(n)
    ensures a + n != "" && !EndsInSlash(a + n)
  {
  }

  /** A component at the front of the rest, and what one turn does with it. */
  lemma TurnOfComponent(out: string, rest: string)
    requires rest != "" && rest[0] != '/'
    ensures Turn(out, rest).1 == AfterName(rest)
    ensures Turn(out, rest).0 ==
            if Name(rest) == "." then out else if Name(rest) == ".." then Pop(out) else out + Name(rest)
  {
    SpecialNames(rest);
  }

  lemma {:induction false} NormComps(out: string, rest: string, st: Stack)
    requires Stands(out, rest, st)
    ensures Comps(NormFrom(out, rest)) == Fold(st, Comps(rest)).names
    decreases |rest|
  {
    if rest == "" {
    } else if rest[0] == '/' {
      var r := SkipSlashes(rest);
      CompsOfSkip(rest);
      StandsAfterSlash(out, rest, st);
      NormComps(if r != "" then out + "/" else out, r, st);
    } else {
      var n, after := Name(rest), AfterName(rest);
      TurnOfComponent(out, rest);
      CompsAtName(rest, n, after);
      FoldOfCons(st, n, Comps(after));
      if n == "." {
        StandsAfterDot(out, rest, st);
      } else if n == ".." {
        StandsAfterDotDot(out, rest, st);
      } else {
        StandsAfterName(out, rest, st);
      }
      NormComps(Turn(out, rest).0, after, Push(st, n));
    }
  }

  lemma FoldOfCons(st: Stack, c: string, cs: seq<string>)
    ensures Fold(st, [c] + cs) == Fold(Push(st, c), cs)
  {
    assert ([c] + cs)[1..] == cs;
  }

  /** The components of a normalised path, for every path. */
  lemma NormalizeComps(p: string)
    ensures Comps(Normalize(p)) == Fold(EMPTY, Comps(p)).names
  {
    assert Comps("/") == Comps("") == [];
    if p != "" && p[0] == '/' {
      NormComps("/", p[1..], EMPTY);
    } else {
      NormComps("", p, EMPTY);
    }
  }

  // ----- against the usual reading -----

  /** The usual reading: `..` removes the last name kept, if any. */
  function StdPush(names: seq<string>, c: string): seq<string> {
    if c == "." then names
    else if c == ".." then (if names == [] then [] else names[..|names| - 1])
    else names + [c]
  }

  function StdFold(names: seq<string>, cs: seq<string>): seq<string>
    decreases |cs|
  {
    if cs == [] then names else StdFold(StdPush(names, cs[0]), cs[1..])
  }

  /** Wherever `..` follows `.` or `..`, or comes first, the usual reading has nothing to
      remove. */
  predicate NoLostPop(names: seq<string>, ordinary: bool, cs: seq<string>)
    decreases |cs|
  {
    cs == [] ||
    ((cs[0] == ".." && !ordinary ==> names == []) && NoLostPop(StdPush(names, cs[0]), !Special(cs[0]), cs[1..]))
  }

  /** Once the code has kept more names than the usual reading, it stays so. */
  lemma {:induction false} MoreNamesStay(st: Stack, names: seq<string>, cs: seq<string>)
    requires |st.names| > |names| && (st.ordinary ==> names != [])
    ensures |Fold(st, cs).names| > |StdFold(names, cs)|
    decreases |cs|
  {
    if cs != [] {
      MoreNamesStay(Push(st, cs[0]), StdPush(names, cs[0]), cs[1..]);
    }
  }

  lemma {:induction false} FoldIsStdIff(st: Stack, cs: seq<string>)
    requires st.ordinary ==> st.names != []
    ensures Fold(st, cs).names == StdFold(st.names, cs) <==> NoLostPop(st.names, st.ordinary, cs)
    decreases |cs|
  {
    if cs != [] {
      if cs[0] == ".." && !st.ordinary && st.names != [] {
        MoreNamesStay(Push(st, ".."), StdPush(st.names, ".."), cs[1..]);
      } else {
        FoldIsStdIff(Push(st, cs[0]), cs[1..]);
      }
    }
  }

  /** Exactly when normalisation agrees with the usual stack reading of a path. */
  lemma NormalizeIsStdIff(p: string)
    ensures Comps(Normalize(p)) == StdFold([], Comps(p)) <==> NoLostPop([], false, Comps(p))
  {
    NormalizeComps(p);
    FoldIsStdIff(EMPTY, Comps(p));
  }

  /** In particular when no `..` directly follows `.` or `..`. */
  predicate NoRepeatedDots(cs: seq<string>) {
    forall i :: 0 < i < |cs| && cs[i] == ".." ==> !Special(cs[i - 1])
  }

  lemma {:induction false} NoRepeatedDotsSuffices(names: seq<string>, ordinary: bool, cs: seq<string>)
    requires NoRepeatedDots(cs) && (cs != [] && cs[0] == ".." && !ordinary ==> names == [])
    ensures NoLostPop(names, ordinary, cs)
    decreases |cs|
  {
    if cs != [] {
      if |cs| > 1 && cs[1] == ".." {
        assert !Special(cs[0]);
      }
      assert NoRepeatedDots(cs[1..]) by {
        forall i | 0 < i < |cs[1..]| && cs[1..][i] == ".."
          ensures !Special(cs[1..][i - 1])
        {
          assert cs[i + 1] == "..";
        }
      }
      NoRepeatedDotsSuffices(StdPush(names, cs[0]), !Special(cs[0]), cs[1..]);
    }
  }

  lemma FoldCons(st: Stack, c: string, cs: seq<string>)
    ensures Fold(st, [c] + cs) == Fold(Push(st, c), cs)
    ensures StdFold(st.names, [c] + cs) == StdFold(StdPush(st.names, c), cs)
  {
    FoldOfCons(st, c, cs);
    assert ([c] + cs)[1..] == cs;
  }

  /** `a/b/../..` is one it does not agree on: the code keeps a, the usual reading
      nothing. */
  lemma RepeatedDotsKeepName(a: string, b: string)
    requires Names([a, b]) && DotFree([a, b])
    ensures Comps(Normalize(Join([a, b, "..", ".."]))) == [a]
    ensures StdFold([], Comps(Join([a, b, "..", ".."]))) == []
  {
    var cs := [a, b, "..", ".."];
    assert [a, b][0] == a && [a, b][1] == b;
    assert SlashFree("..");
    CompsOfJoin(cs);
    NormalizeComps(Join(cs));
    assert cs == [a] + ([b] + ([".."] + ([".."] + [])));
    assert Push(EMPTY, a) == Stack([a], true) && Push(Stack([a], true), b) == Stack([a, b], true);
    assert Push(Stack([a, b], true), "..") == Stack([a], false) == Push(Stack([a], false), "..");
    assert StdPush([], a) == [a] && StdPush([a], b) == [a, b];
    assert StdPush([a, b], "..") == [a] && StdPush([a], "..") == [];
    FoldCons(EMPTY, a, [b] + ([".."] + ([".."] + [])));
    FoldCons(Stack([a], true), b, [".."] + ([".."] + []));
    FoldCons(Stack([a, b], true), "..", [".."] + []);
    FoldCons(Stack([a], false), "..", []);
    assert StdFold([a], [".."] + []) == StdFold([], []);
  }

  // ----- what every result looks like -----

  predicate DotFree(cs: seq<string>) { forall i :: 0 <= i < |cs| ==> !Special(cs[i]) }

  lemma {:induction false} FoldIsDotFree(st: Stack, cs: seq<string>)
    requires DotFree(st.names)
    ensures DotFree(Fold(st, cs).names)
    decreases |cs|
  {
    if cs != [] {
      FoldIsDotFree(Push(st, cs[0]), cs[1..]);
    }
  }

  /** No result has a `.` or `..` component. */
  lemma NormalizeIsDotFree(p: string)
    ensures DotFree(Comps(Normalize(p)))
  {
    NormalizeComps(p);
    FoldIsDotFree(EMPTY, Comps(p));
  }

  lemma ChopKeepsRoot(out: string)
    requires out != "" && out[0] == '/'
    ensures Chop(out) != ""
  {
    assert out[0..] == out;
  }

  lemma {:induction false} NormFromKeepsRoot(out: string, rest: string)
    requires out != "" && out[0] == '/'
    ensures NormFrom(out, rest) != "" && NormFrom(out, rest)[0] == '/'
    decreases |rest|
  {
    if rest == "" {
    } else if rest[0] == '/' {
      var r := SkipSlashes(rest);
      NormFromKeepsRoot(if r != "" then out + "/" else out, r);
    } else if DotHere(rest) {
      NormFromKeepsRoot(out, rest[1..]);
    } else if DotDotHere(rest) {
      if |out| > 1 {
        ChopKeepsRoot(out[..|out| - 1]);
      }
      NormFromKeepsRoot(Pop(out), rest[2..]);
    } else {
      NormFromKeepsRoot(out + Name(rest), AfterName(rest));
    }
  }

  /** An absolute path stays absolute, however many `..` it holds. */
  lemma AbsoluteStaysAbsolute(p: string)
    requires p != "" && p[0] == '/'
    ensures Normalize(p)[0] == '/'
  {
    NormFromKeepsRoot("/", p[1..]);
  }

  // ----- paths without dots -----

  function Join(cs: seq<string>): string {
    if cs == [] then "" else if |cs| == 1 then cs[0] else cs[0] + "/" + Join(cs[1..])
  }

  /** The slashes kept in front: none, one, or two. */
  function Lead(p: string): string {
    if p == "" || p[0] != '/' then "" else if |p| == 1 || p[1] != '/' then "/" else "//"
  }

  /** What the loop appends for a rest without dots. */
  function Tail(rest: string): string {
    if Comps(rest) == [] then "" else (if rest[0] == '/' then "/" else "") + Join(Comps(rest))
  }

  lemma JoinCons(n: string, cs: seq<string>)
    ensures Join([n] + cs) == n + (if cs == [] then "" else "/" + Join(cs))
  {
    if cs != [] {
      assert ([n] + cs)[1..] == cs;
    }
  }

  lemma TailOfName(rest: string)
    requires rest != "" && rest[0] != '/'
    ensures Tail(rest) == Name(rest) + Tail(AfterName(rest))
  {
    JoinCons(Name(rest), Comps(AfterName(rest)));
  }

  lemma TailOfSlash(rest: string)
    requires rest != "" && rest[0] == '/'
    ensures Tail(rest) == if SkipSlashes(rest) == "" then "" else "/" + Tail(SkipSlashes(rest))
  {
    CompsOfSkip(rest);
  }

  lemma DotFreeParts(n: string, cs: seq<string>)
    requires DotFree([n] + cs)
    ensures !Special(n) && DotFree(cs)
  {
    assert ([n] + cs)[0] == n;
    forall i | 0 <= i < |cs|
      ensures !Special(cs[i])
    {
      assert ([n] + cs)[i + 1] == cs[i];
    }
  }

  lemma {:induction false} NormFromDotFree(out: string, rest: string)
    requires DotFree(Comps(rest))
    ensures NormFrom(out, rest) == out + Tail(rest)
    decreases |rest|
  {
    if rest == "" {
    } else if rest[0] == '/' {
      var r := SkipSlashes(rest);
      CompsOfSkip(rest);
      TailOfSlash(rest);
      if r != "" {
        NormFromDotFree(out + "/", r);
        Assoc(out, "/", Tail(r));
      }
    } else {
      SpecialNames(rest);
      var n, after := Name(rest), AfterName(rest);
      DotFreeParts(n, Comps(after));
      TailOfName(rest);
      NormFromDotFree(out + n, after);
      Assoc(out, n, Tail(after));
    }
  }

  lemma LeadAndTail(p: string)
    requires p != "" && p[0] == '/'
    ensures "/" + Tail(p[1..]) == if Comps(p) == [] then "/" else Lead(p) + Join(Comps(p))
  {
    var cs := Comps(p);
    assert cs == Comps(p[1..]);
    if cs != [] {
      assert |p| > 1;
      Assoc("/", if p[1] == '/' then "/" else "", Join(cs));
      assert ("/" + if p[1] == '/' then "/" else "") == Lead(p);
    }
  }

  /** On a path without dots, only slashes change. */
  lemma NormalizeDotFree(p: string)
    requires DotFree(Comps(p))
    ensures Normalize(p) == if Comps(p) == [] then "/" else Lead(p) + Join(Comps(p))
  {
    if p != "" && p[0] == '/' {
      NormFromDotFree("/", p[1..]);
      LeadAndTail(p);
    } else {
      NormFromDotFree("", p);
    }
  }

  predicate Names(cs: seq<string>) { forall i :: 0 <= i < |cs| ==> cs[i] != "" && SlashFree(cs[i]) }

  lemma {:induction false} CompsAreNames(s: string)
    ensures Names(Comps(s))
    decreases |s|
  {
    if s == "" {
    } else if s[0] == '/' {
      CompsAreNames(s[1..]);
    } else {
      CompsAreNames(AfterName(s));
    }
  }

  lemma {:induction false} CompsOfJoin(cs: seq<string>)
    requires Names(cs)
    ensures Comps(Join(cs)) == cs
  {
    if |cs| == 1 {
      CompsOfName(cs[0]);
    } else if |cs| > 1 {
      CompsOfJoin(cs[1..]);
      CompsOfName(cs[0]);
      CompsOfConcat(cs[0], "/" + Join(cs[1..]));
      assert Comps("/" + Join(cs[1..])) == Comps(Join(cs[1..]));
      assert cs[0] + "/" + Join(cs[1..]) == cs[0] + ("/" + Join(cs[1..]));
    }
  }

  lemma JoinStart(cs: seq<string>)
    requires Names(cs) && cs != []
    ensures Join(cs) != "" && Join(cs)[0] != '/'
  {
    assert cs[0] != "" && SlashFree(cs[0]);
  }

  lemma CompsOfLead(p: string)
    ensures Comps(Lead(p)) == []
  {
    assert Comps("/") == Comps("") == [];
    assert Comps("//") == Comps("/");
  }

  lemma LeadOfJoined(p: string, j: string)
    requires j != "" && j[0] != '/'
    ensures Lead(Lead(p) + j) == Lead(p)
  {
    if Lead(p) == "//" {
      assert (Lead(p) + j)[1] == '/';
    }
  }

  lemma CompsOfJoined(p: string, cs: seq<string>)
    requires Names(cs) && cs != []
    ensures Comps(Lead(p) + Join(cs)) == cs
  {
    CompsOfLead(p);
    CompsOfJoin(cs);
    CompsOfConcat(Lead(p), Join(cs));
  }

  /** Normalisation is idempotent on paths without dots ... */
  lemma DotFreeIdempotent(p: string)
    requires DotFree(Comps(p))
    ensures Normalize(Normalize(p)) == Normalize(p)
  {
    NormalizeDotFree(p);
    var cs := Comps(p);
    if cs == [] {
      assert Comps("/") == Comps("") == [];
      NormalizeDotFree("/");
    } else {
      CompsAreNames(p);
      JoinStart(cs);
      CompsOfJoined(p, cs);
      LeadOfJoined(p, Join(cs));
      NormalizeDotFree(Lead(p) + Join(cs));
    }
  }

  /** ... hence a second pass over any result reaches a fixed point. */
  lemma SecondPassIsFixed(p: string)
    ensures Normalize(Normalize(Normalize(p))) == Normalize(Normalize(p))
  {
    NormalizeIsDotFree(p);
    DotFreeIdempotent(Normalize(p));
  }
}
