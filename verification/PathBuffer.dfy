/** vfs_normalize_path of src/impl/kernel/fs.c on its static buffer, in particular when
    the path it reads is that buffer, and the use vfs_mkdir makes of it. */
module PathBuffer {
  import opened Paths

  predicate NulFree(s: string) { forall k :: 0 <= k < |s| ==> s[k] != '\0' }

  /** The C string at index i of the buffer. */
  ghost predicate StringAt(buf: array<char>, i: nat, s: string)
    reads buf
  {
    NulFree(s) && i + |s| < buf.Length && buf[i + |s|] == '\0' && forall k :: 0 <= k < |s| ==> buf[i + k] == s[k]
  }

  lemma PopNulFree(out: string)
    requires NulFree(out)
    ensures NulFree(Pop(out))
  {
  }

  /** The unread part of the source is still the path's. */
  ghost predicate Unread(src: array<char>, p: string, pp: nat)
    reads src
  {
    |p| < src.Length && pp <= |p| && src[|p|] == '\0' && forall k :: pp <= k < |p| ==> src[k] == p[k]
  }

  // ----- one turn of the loop, at read cursor pp -----

  predicate Ends(p: string, i: nat) { i == |p| || (i < |p| && p[i] == '/') }

  predicate DotAt(p: string, pp: nat) { pp < |p| && p[pp] == '.' && Ends(p, pp + 1) }

  predicate DotDotAt(p: string, pp: nat) {
    pp + 1 < |p| && p[pp] == '.' && p[pp + 1] == '.' && Ends(p, pp + 2)
  }

  /** Past the slashes at pp. */
  function SlashEnd(p: string, pp: nat): nat
    requires pp <= |p|
  {
    |p| - |SkipSlashes(p[pp..])|
  }

  /** The text written and the read cursor after one turn. */
  function Turned(out: string, p: string, pp: nat): (string, nat)
    requires pp < |p|
  {
    if p[pp] == '/' then (if SlashEnd(p, pp) < |p| then out + "/" else out, SlashEnd(p, pp))
    else if DotAt(p, pp) then (out, pp + 1)
    else if DotDotAt(p, pp) then (Pop(out), pp + 2)
    else (out + Name(p[pp..]), pp + |Name(p[pp..])|)
  }

  /** Cursors and strings agree on a turn. */
  lemma TurnedIsTurn(out: string, p: string, pp: nat)
    requires pp < |p|
    ensures var (o, next) := Turned(out, p, pp);
            pp < next <= |p| && Paths.Turn(out, p[pp..]) == (o, p[next..])
  {
    var s := p[pp..];
    if p[pp] == '/' {
      assert p[SlashEnd(p, pp)..] == SkipSlashes(s);
    } else if DotAt(p, pp) {
      assert s[1..] == p[pp + 1..];
    } else if DotDotAt(p, pp) {
      assert s[2..] == p[pp + 2..];
      assert !DotHere(s);
    } else {
      assert !DotHere(s) && !DotDotHere(s);
      assert AfterName(s) == p[pp + |Name(s)|..];
    }
  }

  /** A turn does not change where the loop is going. */
  lemma TurnKeepsResult(out: string, p: string, pp: nat, out': string, pp': nat)
    requires pp < |p| && (out', pp') == Turned(out, p, pp)
    ensures pp < pp' <= |p| && NormFrom(out, p[pp..]) == NormFrom(out', p[pp'..])
  {
    TurnedIsTurn(out, p, pp);
  }

  ghost predicate KeptByTurns(inv: (string, nat) -> bool, p: string) {
    forall out: string, pp: nat {:trigger Turned(out, p, pp)} :: pp < |p| && inv(out, pp) ==>
      inv(Turned(out, p, pp).0, Turned(out, p, pp).1)
  }

  lemma TurnAdvances(out: string, p: string, pp: nat)
    requires pp < |p|
    ensures pp < Turned(out, p, pp).1 <= |p|
  {
    TurnedIsTurn(out, p, pp);
  }

  /** The loop is going to goal. */
  ghost function GoesTo(p: string, goal: string): (string, nat) -> bool {
    (out: string, pp: nat) => pp <= |p| && NormFrom(out, p[pp..]) == goal
  }

  lemma GoalKept(p: string, goal: string)
    ensures KeptByTurns(GoesTo(p, goal), p)
  {
    forall out: string, pp: nat | pp < |p| && GoesTo(p, goal)(out, pp)
      ensures GoesTo(p, goal)(Turned(out, p, pp).0, Turned(out, p, pp).1)
    {
      TurnKeepsResult(out, p, pp, Turned(out, p, pp).0, Turned(out, p, pp).1);
    }
  }

  lemma GoalReached(p: string, goal: string, out: string)
    requires GoesTo(p, goal)(out, |p|)
    ensures out == goal
  {
    assert p[|p|..] == "";
  }

  /** Reads the path at src, which may be the buffer dst itself: the write cursor never
      passes the read cursor, so the result is the same. */
  method NormalizePath(src: array<char>, dst: array<char>, ghost p: string)
    requires StringAt(src, 0, p) && |p| < dst.Length && 2 <= dst.Length
    modifies dst
    ensures StringAt(dst, 0, Normalize(p))
    ensures forall k :: |p| < k < dst.Length && 1 < k ==> dst[k] == old(dst[k])
  {
    var np: nat, pp: nat := 0, 0;
    if src[pp] == '/' {
      dst[np] := '/';
      np := np + 1;
      pp := pp + 1;
    }
    assert p[0..] == p && dst[..np] == if pp == 1 then "/" else "";
    ghost var goal := NormFrom(dst[..np], p[pp..]);
    GoalKept(p, goal);
    np := Rewrite(src, dst, np, pp, p, GoesTo(p, goal));
    GoalReached(p, goal, dst[..np]);
    if np == 0 {
      dst[np] := '/';
      np := np + 1;
    }
    assert dst[..np] == Normalize(p);
    dst[np] := '\0';
    assert dst[..np] == Normalize(p);
    assert forall k :: 0 <= k < np ==> dst[k] == dst[..np][k];
  }

  /** The main loop keeps every relation inv between the text written and the read
      cursor that each turn keeps. */
  method Rewrite(src: array<char>, dst: array<char>, n: nat, start: nat, ghost p: string,
                 ghost inv: (string, nat) -> bool)
    returns (np: nat)
    requires n <= start <= |p| < dst.Length && Unread(src, p, start) && NulFree(p) && NulFree(dst[..n])
    requires inv(dst[..n], start) && KeptByTurns(inv, p)
    modifies dst
    ensures np <= |p| && inv(dst[..np], |p|) && NulFree(dst[..np])
    ensures forall k :: |p| < k < dst.Length ==> dst[k] == old(dst[k])
  {
    np := n;
    var pp := start;
    ghost var out := dst[..n];
    while src[pp] != '\0'
      invariant np <= pp <= |p| && Unread(src, p, pp)
      invariant dst[..np] == out && NulFree(out) && inv(out, pp)
      invariant forall k :: |p| < k < dst.Length ==> dst[k] == old(dst[k])
      decreases |p| - pp
    {
      TurnAdvances(out, p, pp);
      np, pp := Turn(src, dst, np, pp, p);
      out := dst[..np];
    }
  }

  /** The tests of the loop body, on the buffer. */
  lemma DotsInBuffer(src: array<char>, p: string, pp: nat)
    requires pp < |p| && Unread(src, p, pp) && NulFree(p)
    ensures src[pp] == p[pp]
    ensures DotAt(p, pp) == (src[pp] == '.' && (src[pp + 1] == '/' || src[pp + 1] == '\0'))
    ensures src[pp] == '.' && src[pp + 1] == '.' ==> pp + 1 < |p|
    ensures DotDotAt(p, pp) ==
            (src[pp] == '.' && src[pp + 1] == '.' && (src[pp + 2] == '/' || src[pp + 2] == '\0'))
  {
  }

  method Turn(src: array<char>, dst: array<char>, n: nat, start: nat, ghost p: string) returns (np: nat, pp: nat)
    requires n <= start < |p| < dst.Length && Unread(src, p, start) && NulFree(p) && NulFree(dst[..n])
    modifies dst
    ensures np <= pp <= |p| && Unread(src, p, pp) && NulFree(dst[..np])
    ensures (dst[..np], pp) == Turned(old(dst[..n]), p, start)
    ensures forall k :: |p| < k < dst.Length ==> dst[k] == old(dst[k])
  {
    np, pp := n, start;
    ghost var out := dst[..n];
    DotsInBuffer(src, p, start);
    if src[pp] == '/' {
      np, pp := TurnAtSlash(src, dst, np, pp, p);
    } else if src[pp] == '.' && (src[pp + 1] == '/' || src[pp + 1] == '\0') {
      pp := pp + 1;
    } else if src[pp] == '.' && src[pp + 1] == '.' && (src[pp + 2] == '/' || src[pp + 2] == '\0') {
      PopNulFree(out);
      pp := pp + 2;
      np := PopAt(dst, np, out);
    } else {
      np, pp := CopyName(src, dst, np, pp, p);
      NameNulFree(p, start);
    }
  }

  method TurnAtSlash(src: array<char>, dst: array<char>, n: nat, start: nat, ghost p: string) returns (np: nat, pp: nat)
    requires n <= start < |p| < dst.Length && Unread(src, p, start) && NulFree(p) && NulFree(dst[..n])
    requires p[start] == '/'
    modifies dst
    ensures np <= pp <= |p| && pp == SlashEnd(p, start) && Unread(src, p, pp) && NulFree(dst[..np])
    ensures dst[..np] == if pp < |p| then old(dst[..n]) + "/" else old(dst[..n])
    ensures forall k :: |p| < k < dst.Length ==> dst[k] == old(dst[k])
  {
    np := n;
    ghost var out := dst[..n];
    pp := SkipSlashesAt(src, start, p);
    if src[pp] != '\0' {
      dst[np] := '/';
      np := np + 1;
      assert dst[..np] == out + "/";
    }
  }

  lemma NameNulFree(p: string, pp: nat)
    requires NulFree(p) && pp <= |p|
    ensures NulFree(Name(p[pp..]))
  {
    NameInPath(p, pp);
  }

  lemma SkipAt(p: string, pp: nat)
    requires pp <= |p|
    ensures pp < |p| && p[pp] == '/' ==> SkipSlashes(p[pp..]) == SkipSlashes(p[pp + 1..])
    ensures pp == |p| || p[pp] != '/' ==> SkipSlashes(p[pp..]) == p[pp..]
  {
    if pp < |p| {
      assert p[pp..][1..] == p[pp + 1..];
    }
  }

  method SkipSlashesAt(src: array<char>, start: nat, ghost p: string) returns (pp: nat)
    requires Unread(src, p, start) && NulFree(p) && start < |p|
    ensures start <= pp <= |p| && pp == SlashEnd(p, start) && (p[start] == '/' ==> start < pp)
    ensures src[pp] == '\0' <==> pp == |p|
  {
    pp := start;
    while src[pp] == '/'
      invariant start <= pp <= |p| && SkipSlashes(p[pp..]) == SkipSlashes(p[start..])
      decreases |p| - pp
    {
      SkipAt(p, pp);
      pp := pp + 1;
    }
    SkipAt(p, pp);
  }

  lemma ChopAt(out: string, np: nat)
    requires np <= |out|
    ensures np > 0 && out[np - 1] != '/' ==> Chop(out[..np]) == Chop(out[..np - 1])
    ensures np == 0 || out[np - 1] == '/' ==> Chop(out[..np]) == out[..np]
  {
    if np > 0 {
      assert out[..np][..np - 1] == out[..np - 1];
    }
  }

  method PopAt(dst: array<char>, end: nat, ghost out: string) returns (np: nat)
    requires end <= dst.Length && dst[..end] == out
    ensures np <= end && dst[..np] == Pop(out)
  {
    np := end;
    if np > 1 {
      np := np - 1;
      while np > 0 && dst[np - 1] != '/'
        invariant 0 <= np < end && Chop(out[..np]) == Pop(out)
      {
        ChopAt(out, np);
        np := np - 1;
      }
      ChopAt(out, np);
    }
    assert dst[..np] == out[..np];
  }

  lemma NameInPath(p: string, start: nat)
    requires start <= |p|
    ensures var n := Name(p[start..]);
            && start + |n| <= |p| && (start + |n| < |p| ==> p[start + |n|] == '/')
            && forall k {:trigger p[k]} :: start <= k < start + |n| ==> p[k] == n[k - start] && p[k] != '/'
  {
    var n := Name(p[start..]);
    forall k {:trigger p[k]} | start <= k < start + |n|
      ensures p[k] == n[k - start] && p[k] != '/'
    {
      assert p[start..][k - start] == n[k - start];
    }
  }

  method CopyName(src: array<char>, dst: array<char>, n: nat, start: nat, ghost p: string) returns (np: nat, pp: nat)
    requires n <= start <= |p| < dst.Length && Unread(src, p, start) && NulFree(p)
    modifies dst
    ensures np <= pp <= |p| && Unread(src, p, pp)
    ensures pp == start + |Name(p[start..])|
    ensures dst[..np] == old(dst[..n]) + Name(p[start..])
    ensures forall k :: |p| < k < dst.Length ==> dst[k] == old(dst[k])
  {
    NameInPath(p, start);
    np, pp := CopyTo(src, dst, n, start, p, start + |Name(p[start..])|);
    assert p[start..pp] == Name(p[start..]);
  }

  /** The copying loop, up to the slash or end at stop. */
  method CopyTo(src: array<char>, dst: array<char>, n: nat, start: nat, ghost p: string, ghost stop: nat)
    returns (np: nat, pp: nat)
    requires n <= start <= stop <= |p| < dst.Length && Unread(src, p, start) && NulFree(p)
    requires (forall k :: start <= k < stop ==> p[k] != '/') && (stop < |p| ==> p[stop] == '/')
    modifies dst
    ensures np <= pp == stop && Unread(src, p, pp)
    ensures dst[..np] == old(dst[..n]) + p[start..stop]
    ensures forall k :: |p| < k < dst.Length ==> dst[k] == old(dst[k])
  {
    np, pp := n, start;
    while src[pp] != '\0' && src[pp] != '/'
      invariant start <= pp <= stop && np == n + (pp - start)
      invariant Unread(src, p, pp)
      invariant dst[..np] == old(dst[..n]) + p[start..pp]
      invariant forall k :: |p| < k < dst.Length ==> dst[k] == old(dst[k])
      decreases stop - pp
    {
      assert p[start..pp + 1] == p[start..pp] + [p[pp]];
      dst[np] := src[pp];
      np := np + 1;
      pp := pp + 1;
    }
  }

  // ----- vfs_mkdir -----

  lemma EndOfString(buf: array<char>, s: string, i: nat)
    requires StringAt(buf, 0, s) && i <= |s|
    ensures buf[i] == '\0' <==> i == |s|
  {
    if i < |s| {
      assert buf[0 + i] == s[i];
    }
  }

  /** strrchr(buf, '/') on the string s. */
  method LastSlash(buf: array<char>, ghost s: string) returns (found: bool, at: nat)
    requires StringAt(buf, 0, s)
    ensures found <==> !SlashFree(s)
    ensures found ==> at < |s| && s[at] == '/' && SlashFree(s[at + 1..])
  {
    found, at := false, 0;
    var i: nat := 0;
    while buf[i] != '\0'
      invariant i <= |s|
      invariant found <==> !SlashFree(s[..i])
      invariant found ==> at < i && s[at] == '/' && SlashFree(s[at + 1..i])
      decreases |s| - i
    {
      assert buf[i] == s[i];
      if buf[i] == '/' {
        found, at := true, i;
        assert s[..i + 1][i] == '/';
      } else {
        assert s[..i + 1] == s[..i] + [s[i]];
        assert found ==> s[at + 1..i + 1] == s[at + 1..i] + [s[i]];
      }
      i := i + 1;
    }
    EndOfString(buf, s, i);
    assert s[..i] == s;
  }

  /** Whether the name behind the slash is still there. */
  lemma NameLeft(buf: array<char>, q: string, at: nat)
    requires NulFree(q) && at < |q| < buf.Length
    requires at > 0 ==> buf[|q|] == '\0' && forall k :: at < k < |q| ==> buf[k] == q[k]
    requires at == 0 ==> buf[1] == '\0'
    ensures StringAt(buf, at + 1, q[at + 1..]) <==> at > 0 || |q| == 1
  {
    var name := q[at + 1..];
    assert forall k :: 0 <= k < |name| ==> name[k] == q[at + 1 + k];
    if at == 0 && |q| > 1 {
      assert name[0] != '\0';
    }
  }

  /** vfs_mkdir up to its lookup: normalise the path, cut it at the last slash, and
      normalise the parent where it stands. The name behind the slash survives unless
      the slash is the first character: then the parent's `/` and its NUL overwrite
      it, so a directory right below the root loses its name. */
  method MkdirParent(path: array<char>, buf: array<char>, ghost p: string) returns (found: bool, at: nat)
    requires StringAt(path, 0, p) && |p| < buf.Length && 2 <= buf.Length
    modifies buf
    ensures found <==> !SlashFree(Normalize(p))
    ensures found ==>
              var q := Normalize(p);
              && at < |q| && q[at] == '/' && SlashFree(q[at + 1..])
              && StringAt(buf, 0, Normalize(q[..at]))
              && (StringAt(buf, at + 1, q[at + 1..]) <==> at > 0 || q == "/")
  {
    NormalizePath(path, buf, p);
    ghost var q := Normalize(p);
    found, at := LastSlash(buf, q);
    if found {
      buf[at] := '\0';
      assert forall k :: 0 <= k < at ==> buf[k] == q[k];
      assert forall k :: at < k < |q| ==> buf[k] == q[k];
      assert buf[|q|] == '\0';
      NormalizePath(buf, buf, q[..at]);
      if at == 0 {
        assert q[..0] == "" && Normalize("") == "/";
        assert buf[0 + |Normalize("")|] == '\0';
      }
      NameLeft(buf, q, at);
    }
  }

  /** Parent and name together are the path's components. */
  lemma MkdirComps(p: string, at: nat)
    requires at < |Normalize(p)| && Normalize(p)[at] == '/' && SlashFree(Normalize(p)[at + 1..])
    ensures var q := Normalize(p);
            Comps(q) == Comps(Normalize(q[..at])) + (if at + 1 == |q| then [] else [q[at + 1..]])
  {
    var q := Normalize(p);
    assert q == q[..at] + ("/" + q[at + 1..]);
    NormalizeIsDotFree(p);
    ParentComps(q[..at], q[at + 1..]);
  }

  lemma ParentComps(parent: string, name: string)
    requires SlashFree(name) && DotFree(Comps(parent + ("/" + name)))
    ensures Comps(parent + ("/" + name)) == Comps(Normalize(parent)) + (if name == "" then [] else [name])
  {
    CompsOfConcat(parent, "/" + name);
    CompsOfLast(name);
    DotFreeFront(Comps(parent), Comps("/" + name));
    NormalizeKeepsComps(parent);
  }

  lemma NormalizeKeepsComps(s: string)
    requires DotFree(Comps(s))
    ensures Comps(Normalize(s)) == Comps(s)
  {
    NormalizeComps(s);
    FoldOfDotFree(EMPTY, Comps(s));
  }

  lemma CompsOfLast(name: string)
    requires SlashFree(name)
    ensures Comps("/" + name) == if name == "" then [] else [name]
  {
    assert ("/" + name)[1..] == name;
    if name == "" {
      assert Comps("") == [];
    } else {
      CompsOfName(name);
    }
  }

  lemma DotFreeFront(xs: seq<string>, ys: seq<string>)
    requires DotFree(xs + ys)
    ensures DotFree(xs)
  {
    forall i | 0 <= i < |xs|
      ensures !Special(xs[i])
    {
      assert (xs + ys)[i] == xs[i];
    }
  }

  lemma {:induction false} FoldOfDotFree(st: Stack, cs: seq<string>)
    requires DotFree(cs)
    ensures Fold(st, cs).names == st.names + cs
    decreases |cs|
  {
    if cs != [] {
      assert DotFree(cs[1..]);
      FoldOfDotFree(Push(st, cs[0]), cs[1..]);
    }
  }
}
