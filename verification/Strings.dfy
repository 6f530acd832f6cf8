/** Tokenising a string in place (src/core/string.c): `strchr`, `strspn`, `strcspn`, `strtok` and
    `strtok_r`. A pointer into the string is an index into its array. */
module Strings {
  datatype Ptr = Null | At(pos: nat)

  const NUL: char := '\0'

  /** From p on, the array holds a string that ends at `end`. */
  ghost predicate Text(s: seq<char>, p: nat, end: nat) {
    p <= end < |s| && s[end] == NUL && forall i :: p <= i < end ==> s[i] != NUL
  }

  /** The end of the stretch from p on whose characters all are (or all are not) in d. */
  function Stretch(s: seq<char>, p: nat, end: nat, d: string, inside: bool): (r: nat)
    requires p <= end <= |s|
    ensures p <= r <= end && forall i :: p <= i < r ==> (s[i] in d) == inside
    ensures r < end ==> (s[r] in d) != inside
    decreases end - p
  {
    if p == end || (s[p] in d) != inside then p else Stretch(s, p + 1, end, d, inside)
  }

  /** From p on, two arrays hold the same. */
  ghost predicate SameFrom(s: seq<char>, t: seq<char>, p: nat) {
    p <= |s| == |t| && t[p..] == s[p..]
  }

  // --- the pieces ----------------------------------------------------------------------

  /** The maximal stretches without delimiters, from left to right. */
  function Spans(s: seq<char>, p: nat, end: nat, d: string): seq<(nat, nat)>
    requires p <= end <= |s|
    decreases end - p
  {
    var b := Stretch(s, p, end, d, true);
    if b == end then []
    else
      var e := Stretch(s, b, end, d, false);
      [(b, e)] + Spans(s, if e < end then e + 1 else e, end, d)
  }

  /** A stretch of [p, end) without delimiters that cannot be made longer. */
  ghost predicate IsRun(s: seq<char>, p: nat, end: nat, d: string, x: (nat, nat))
    requires end <= |s|
  {
    && p <= x.0 < x.1 <= end && (forall i :: x.0 <= i < x.1 ==> s[i] !in d)
    && (x.0 == p || s[x.0 - 1] in d) && (x.1 == end || s[x.1] in d)
  }

  ghost predicate Ordered(xs: seq<(nat, nat)>) {
    forall j, k :: 0 <= j < k < |xs| ==> xs[j].1 < xs[k].0
  }

  /** All maximal stretches, each once, from left to right. */
  ghost predicate AllRuns(s: seq<char>, p: nat, end: nat, d: string, xs: seq<(nat, nat)>)
    requires end <= |s|
  {
    && Ordered(xs) && (forall k :: 0 <= k < |xs| ==> IsRun(s, p, end, d, xs[k]))
    && forall i :: p <= i < end && s[i] !in d ==> exists k :: 0 <= k < |xs| && xs[k].0 <= i < xs[k].1
  }

  /** A run, then a delimiter or the end, then all later runs. */
  lemma RunInFront(s: seq<char>, p: nat, end: nat, d: string, b: nat, e: nat, rest: seq<(nat, nat)>)
    requires p <= b < e <= end <= |s|
    requires (forall i :: p <= i < b ==> s[i] in d) && (forall i :: b <= i < e ==> s[i] !in d)
    requires e < end ==> s[e] in d && AllRuns(s, e + 1, end, d, rest)
    requires e == end ==> rest == []
    ensures AllRuns(s, p, end, d, [(b, e)] + rest)
  {
    var xs := [(b, e)] + rest;
    RunsBehind(s, p, end, d, b, e, rest);
    forall i | p <= i < end && s[i] !in d
      ensures exists k :: 0 <= k < |xs| && xs[k].0 <= i < xs[k].1
    {
      if i < e {
        assert xs[0].0 <= i < xs[0].1;
      } else {
        var k :| 0 <= k < |rest| && rest[k].0 <= i < rest[k].1;
        assert xs[k + 1] == rest[k];
      }
    }
  }

  lemma RunsBehind(s: seq<char>, p: nat, end: nat, d: string, b: nat, e: nat, rest: seq<(nat, nat)>)
    requires p <= b < e <= end <= |s|
    requires (forall i :: p <= i < b ==> s[i] in d) && (forall i :: b <= i < e ==> s[i] !in d)
    requires e < end ==> s[e] in d && AllRuns(s, e + 1, end, d, rest)
    requires e == end ==> rest == []
    ensures var xs := [(b, e)] + rest; Ordered(xs) && forall k :: 0 <= k < |xs| ==> IsRun(s, p, end, d, xs[k])
  {
    var xs := [(b, e)] + rest;
    forall k | 0 <= k < |xs|
      ensures IsRun(s, p, end, d, xs[k]) && (k > 0 ==> e < xs[k].0 && xs[k] == rest[k - 1])
    {
      if k > 0 { assert IsRun(s, e + 1, end, d, rest[k - 1]); }
    }
  }

  lemma {:induction false} SpansAreAllRuns(s: seq<char>, p: nat, end: nat, d: string)
    requires p <= end <= |s|
    ensures AllRuns(s, p, end, d, Spans(s, p, end, d))
    decreases end - p
  {
    hide AllRuns;
    var b := Stretch(s, p, end, d, true);
    if b < end {
      var e := Stretch(s, b, end, d, false);
      if e < end {
        SpansAreAllRuns(s, e + 1, end, d);
        RunInFront(s, p, end, d, b, e, Spans(s, e + 1, end, d));
      } else {
        RunInFront(s, p, end, d, b, e, []);
      }
    } else {
      NoRuns(s, p, end, d);
    }
  }

  lemma NoRuns(s: seq<char>, p: nat, end: nat, d: string)
    requires p <= end <= |s| && forall i :: p <= i < end ==> s[i] in d
    ensures AllRuns(s, p, end, d, [])
  {
  }

  lemma SameRun(s: seq<char>, p: nat, end: nat, d: string, x: (nat, nat), y: (nat, nat))
    requires end <= |s| && IsRun(s, p, end, d, x) && IsRun(s, p, end, d, y) && y.0 <= x.0 < y.1
    ensures x == y
  {
  }

  lemma RunFound(s: seq<char>, p: nat, end: nat, d: string, x: (nat, nat), ys: seq<(nat, nat)>) returns (k: nat)
    requires end <= |s| && IsRun(s, p, end, d, x) && AllRuns(s, p, end, d, ys)
    ensures k < |ys| && ys[k] == x
  {
    assert s[x.0] !in d;
    k :| 0 <= k < |ys| && ys[k].0 <= x.0 < ys[k].1;
    SameRun(s, p, end, d, x, ys[k]);
  }

  /** The next run is the same on both sides. */
  lemma NextRunAgrees(s: seq<char>, p: nat, end: nat, d: string, xs: seq<(nat, nat)>, ys: seq<(nat, nat)>, n: nat)
    requires end <= |s| && AllRuns(s, p, end, d, xs) && AllRuns(s, p, end, d, ys)
    requires n <= |xs| && n <= |ys| && forall j :: 0 <= j < n ==> xs[j] == ys[j]
    ensures n < |xs| ==> n < |ys| && xs[n] == ys[n]
  {
    if n < |xs| {
      assert forall j :: 0 <= j < n ==> ys[j].1 < xs[n].0;
      var k := RunFound(s, p, end, d, xs[n], ys);
      assert k >= n;
      if k > n {
        assert forall j :: 0 <= j < n ==> xs[j].1 < ys[n].0;
        var m := RunFound(s, p, end, d, ys[n], xs);
        assert false;
      }
    }
  }

  /** There is only one such list. */
  lemma RunsAreUnique(s: seq<char>, p: nat, end: nat, d: string, xs: seq<(nat, nat)>, ys: seq<(nat, nat)>)
    requires end <= |s| && AllRuns(s, p, end, d, xs) && AllRuns(s, p, end, d, ys)
    ensures xs == ys
  {
    var n := 0;
    while n < |xs|
      invariant n <= |xs| && n <= |ys| && forall j :: 0 <= j < n ==> xs[j] == ys[j]
    {
      NextRunAgrees(s, p, end, d, xs, ys, n);
      n := n + 1;
    }
    NextRunAgrees(s, p, end, d, ys, xs, n);
  }

  // --- the library ------------------------------------------------------------------------

  /** `strchr(str, c)`: the first place of c in the string, its terminator included. */
  method StrChr(str: string, c: char) returns (r: Ptr)
    requires NUL !in str
    ensures r.At? ==> r.pos <= |str| && c !in str[..r.pos] && c == (str + [NUL])[r.pos]
    ensures r == Null <==> c != NUL && c !in str
  {
    var i := 0;
    while (if i < |str| then str[i] else NUL) != c
      invariant 0 <= i <= |str| && c !in str[..i]
      decreases |str| - i
    {
      if i == |str| { return Null; }
      i := i + 1;
    }
    return Ptr.At(i);
  }

  /** `strspn(a + p, d)`. */
  method StrSpn(a: array<char>, p: nat, d: string, ghost end: nat) returns (n: nat)
    requires Text(a[..], p, end) && NUL !in d
    ensures p + n == Stretch(a[..], p, end, d, true)
  {
    n := 0;
    while a[p + n] != NUL
      invariant p + n <= end && Stretch(a[..], p + n, end, d, true) == Stretch(a[..], p, end, d, true)
      decreases end - n
    {
      var found := StrChr(d, a[p + n]);
      if found == Null { return; }
      n := n + 1;
    }
  }

  /** `strcspn(a + p, d)`. */
  method StrCspn(a: array<char>, p: nat, d: string, ghost end: nat) returns (n: nat)
    requires Text(a[..], p, end) && NUL !in d
    ensures p + n == Stretch(a[..], p, end, d, false)
  {
    n := 0;
    while a[p + n] != NUL
      invariant p + n <= end && Stretch(a[..], p + n, end, d, false) == Stretch(a[..], p, end, d, false)
      decreases end - n
    {
      var found := StrChr(d, a[p + n]);
      if found != Null { return; }
      n := n + 1;
    }
  }

  /** `strtok_r`: the next run, and where to go on. */
  method StrTokR(a: array<char>, str: Ptr, d: string, store: nat, ghost end: nat) returns (tok: Ptr, next: nat)
    requires NUL !in d && Text(a[..], if str.At? then str.pos else store, end)
    modifies a
    ensures var p := if str.At? then str.pos else store;
      var b := Stretch(old(a[..]), p, end, d, true);
      var e := Stretch(old(a[..]), b, end, d, false);
      && tok == (if b == end then Null else At(b)) && next == (if e < end then e + 1 else e)
      && a[..] == if e < end then old(a[..])[e := NUL] else old(a[..])
  {
    var p := if str.At? then str.pos else store;
    if a[p] == NUL { return Null, p; }
    var n := StrSpn(a, p, d, end);
    var b := p + n;
    if a[b] == NUL { return Null, b; }
    n := StrCspn(a, b, d, end);
    var e := b + n;
    if a[e] == NUL { return At(b), e; }
    a[e] := NUL;
    return At(b), e + 1;
  }

  /** What tokenising leaves of a string: each delimiter that ended a run is a terminator, and
      nothing else has changed. */
  ghost predicate CutAt(s: seq<char>, t: seq<char>, end: nat, d: string, xs: seq<(nat, nat)>)
    requires end < |s|
  {
    && |t| == |s|
    && (forall k :: 0 <= k < |xs| ==> xs[k].1 <= end && t[xs[k].1] == NUL && (xs[k].1 < end ==> s[xs[k].1] in d))
    && forall i :: 0 <= i < |s| ==> t[i] == s[i] || exists k :: 0 <= k < |xs| && xs[k].1 == i
  }

  lemma CutMore(s: seq<char>, t: seq<char>, end: nat, d: string, xs: seq<(nat, nat)>, x: (nat, nat))
    requires end < |s| && CutAt(s, t, end, d, xs) && x.1 <= end && (x.1 < end ==> s[x.1] in d) && t[end] == NUL
    ensures CutAt(s, if x.1 < end then t[x.1 := NUL] else t, end, d, xs + [x])
  {
    var u := if x.1 < end then t[x.1 := NUL] else t;
    forall i | 0 <= i < |s| && u[i] != s[i]
      ensures exists k :: 0 <= k < |xs + [x]| && (xs + [x])[k].1 == i
    {
      if i == x.1 {
        assert (xs + [x])[|xs|].1 == i;
      } else {
        var k :| 0 <= k < |xs| && xs[k].1 == i;
        assert (xs + [x])[k].1 == i;
      }
    }
  }

  /** One call on a string whose rest from `store` on is still the original one. */
  method NextPiece(a: array<char>, str: Ptr, d: string, store: nat,
                   ghost s: seq<char>, ghost end: nat, ghost xs: seq<(nat, nat)>)
      returns (tok: Ptr, next: nat, ghost x: (nat, nat))
    requires NUL !in d && Text(s, 0, end) && (str.At? ==> str.pos == store) && store <= end
    requires SameFrom(s, a[..], store) && CutAt(s, a[..], end, d, xs)
    modifies a
    ensures store <= next <= end && SameFrom(s, a[..], next)
    ensures tok.Null? ==> Spans(s, store, end, d) == [] && a[..] == old(a[..])
    ensures tok.At? ==> store < next && Spans(s, store, end, d) == [x] + Spans(s, next, end, d) && tok.pos == x.0
    ensures tok.At? ==> CutAt(s, a[..], end, d, xs + [x])
  {
    hide CutAt, Stretch, Spans, Text, SameFrom;
    TextEnds(s, 0, end);
    ghost var now := a[..];
    RestIsText(s, now, store, end);
    ghost var b := Stretch(s, store, end, d, true);
    ghost var e := Stretch(s, b, end, d, false);
    SameStretch(s, now, store, end, d, true);
    SameStretch(s, now, b, end, d, false);
    tok, next := StrTokR(a, str, d, store, end);
    x := (b, e);
    CutText(s, now, a[..], store, b, e, end);
    SpansStep(s, store, end, d, b, e, next);
    if tok.At? { CutMore(s, now, end, d, xs, x); }
  }

  lemma RestIsText(s: seq<char>, t: seq<char>, p: nat, end: nat)
    requires Text(s, 0, end) && p <= end && SameFrom(s, t, p)
    ensures Text(t, p, end) && t[end] == NUL
    ensures forall q: nat :: p <= q <= end ==> SameFrom(s, t, q)
  {
    assert forall i :: p <= i < |s| ==> t[i] == t[p..][i - p] == s[p..][i - p] == s[i];
  }

  /** The callers' loop: repeated calls of `strtok_r` visit exactly the maximal delimiter-free runs,
      in order, and stop. */
  method Pieces(a: array<char>, d: string, ghost end: nat) returns (toks: seq<nat>)
    requires NUL !in d && Text(a[..], 0, end)
    modifies a
    ensures var xs := Spans(old(a[..]), 0, end, d);
      && AllRuns(old(a[..]), 0, end, d, xs) && CutAt(old(a[..]), a[..], end, d, xs)
      && |toks| == |xs| && forall k :: 0 <= k < |xs| ==> toks[k] == xs[k].0
  {
    hide AllRuns, CutAt, Stretch, Spans;
    ghost var s, all := a[..], Spans(a[..], 0, end, d);
    SpansAreAllRuns(s, 0, end, d);
    NothingCut(s, end, d);
    ghost var xs: seq<(nat, nat)> := [];
    toks := [];
    var tok, store, x := NextPiece(a, At(0), d, 0, s, end, xs);
    while tok.At?
      invariant store <= end && SameFrom(s, a[..], store)
      invariant tok.At? ==>
        all == xs + [x] + Spans(s, store, end, d) && tok.pos == x.0 && CutAt(s, a[..], end, d, xs + [x])
      invariant tok.Null? ==> all == xs && CutAt(s, a[..], end, d, xs)
      invariant |toks| == |xs| && forall k :: 0 <= k < |xs| ==> toks[k] == xs[k].0
      decreases end - store, tok.At?
    {
      toks := toks + [tok.pos];
      xs := xs + [x];
      tok, store, x := NextPiece(a, Null, d, store, s, end, xs);
    }
  }

  /** So each token reads as its run, even after all later calls. */
  lemma TokenReads(s: seq<char>, t: seq<char>, end: nat, d: string, xs: seq<(nat, nat)>, k: nat)
    requires Text(s, 0, end) && AllRuns(s, 0, end, d, xs) && CutAt(s, t, end, d, xs) && k < |xs|
    ensures Text(t, xs[k].0, xs[k].1) && t[xs[k].0..xs[k].1] == s[xs[k].0..xs[k].1]
  {
    forall i | xs[k].0 <= i < xs[k].1
      ensures t[i] == s[i]
    {
      assert forall j :: 0 <= j < |xs| ==> IsRun(s, 0, end, d, xs[j]) && xs[j].1 != i;
    }
  }

  lemma NothingCut(s: seq<char>, end: nat, d: string)
    requires end < |s|
    ensures CutAt(s, s, end, d, [])
  {
  }

  lemma {:induction false} SameStretch(s: seq<char>, t: seq<char>, p: nat, end: nat, d: string, inside: bool)
    requires p <= end < |s| && SameFrom(s, t, p)
    ensures Stretch(t, p, end, d, inside) == Stretch(s, p, end, d, inside)
    decreases end - p
  {
    assert t[p] == t[p..][0] && s[p] == s[p..][0];
    if p < end {
      assert t[p + 1..] == t[p..][1..] && s[p + 1..] == s[p..][1..];
      SameStretch(s, t, p + 1, end, d, inside);
    }
  }

  /** The state of `strtok`. */
  class Tokenizer {
    var p: Ptr

    constructor ()
      ensures p == Null
    {
      p := Null;
    }

    /** `strtok`: as `strtok_r`, but it forgets its place at the end. */
    method StrTok(a: array<char>, str: Ptr, d: string, ghost end: nat) returns (tok: Ptr)
      requires NUL !in d && (str.At? ==> Text(a[..], str.pos, end)) && (str.Null? && p.At? ==> Text(a[..], p.pos, end))
      modifies this, a
      ensures str.Null? && old(p).Null? ==> tok == Null && p == Null && a[..] == old(a[..])
      ensures str.At? || old(p).At? ==>
        var q := if str.At? then str.pos else old(p).pos;
        var b := Stretch(old(a[..]), q, end, d, true);
        var e := Stretch(old(a[..]), b, end, d, false);
        && tok == (if b == end then Null else At(b)) && p == (if e < end then At(e + 1) else Null)
        && a[..] == if e < end then old(a[..])[e := NUL] else old(a[..])
    {
      if str.At? {
        p := str;
      } else if p.Null? {
        return Null;
      }
      var n := StrSpn(a, p.pos, d, end);
      var b := p.pos + n;
      n := StrCspn(a, b, d, end);
      var e := b + n;
      if e == b {
        p := Null;
        return Null;
      }
      if a[e] != NUL {
        a[e] := NUL;
        p := At(e + 1);
      } else {
        p := Null;
      }
      return At(b);
    }
  }

  /** One call of `strtok` on a string whose rest from `store` on is still the original one: the
      next run, which from now on reads as a string of its own. */
  method NextToken(tk: Tokenizer, a: array<char>, str: Ptr, d: string,
                   ghost s: seq<char>, ghost store: nat, ghost end: nat)
      returns (tok: Ptr, ghost next: nat, ghost b: nat, ghost e: nat)
    requires NUL !in d && Text(s, 0, end) && store <= end && SameFrom(s, a[..], store)
    requires str.At? ==> str.pos == store
    requires str.Null? ==> if tk.p.At? then tk.p.pos == store else store == end
    modifies tk, a
    ensures store <= next <= end && SameFrom(s, a[..], next) && if tk.p.At? then tk.p.pos == next else next == end
    ensures tok.Null? ==> Spans(s, store, end, d) == []
    ensures tok.At? ==>
      && Spans(s, store, end, d) == [(b, e)] + Spans(s, next, end, d) && tok.pos == b
      && b <= e <= end && Text(a[..], b, e) && a[b..e] == s[b..e]
  {
    hide Stretch, Spans, Text, SameFrom;
    TextEnds(s, 0, end);
    ghost var now := a[..];
    RestIsText(s, now, store, end);
    b := Stretch(s, store, end, d, true);
    e := Stretch(s, b, end, d, false);
    SameStretch(s, now, store, end, d, true);
    SameStretch(s, now, b, end, d, false);
    tok := tk.StrTok(a, str, d, end);
    next := if e < end then e + 1 else end;
    CutText(s, now, a[..], store, b, e, end);
    SpansStep(s, store, end, d, b, e, next);
  }

  lemma SpansStep(s: seq<char>, p: nat, end: nat, d: string, b: nat, e: nat, next: nat)
    requires p <= end <= |s| && b == Stretch(s, p, end, d, true) && e == Stretch(s, b, end, d, false)
    requires next == if e < end then e + 1 else end
    ensures Spans(s, p, end, d) == if b == end then [] else [(b, e)] + Spans(s, next, end, d)
  {
  }

  lemma TextEnds(s: seq<char>, p: nat, end: nat)
    requires Text(s, p, end)
    ensures end < |s|
  {
  }

  lemma SameAsItself(s: seq<char>)
    ensures SameFrom(s, s, 0)
  {
  }

  /** The text before a new terminator, and what lies behind it. */
  lemma CutText(s: seq<char>, now: seq<char>, after: seq<char>, store: nat, b: nat, e: nat, end: nat)
    requires Text(s, 0, end) && store <= b <= e <= end && SameFrom(s, now, store)
    requires after == if e < end then now[e := NUL] else now
    ensures Text(after, b, e) && after[b..e] == s[b..e]
    ensures var next := if e < end then e + 1 else end; SameFrom(s, after, next)
  {
    assert forall i :: store <= i < |s| ==> now[i] == now[store..][i - store] == s[store..][i - store] == s[i];
  }
}
