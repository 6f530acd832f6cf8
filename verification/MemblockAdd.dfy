/** Adding a range to the region array (`memblock_add_region`).  The walk that inserts the missing
    pieces is right; the fusion that follows shifts entries without lowering the count, so that
    every fusion leaves the last region in the array twice.  Both are modelled as written. */
module MemblockAdd {
  import opened PageMap
  import opened Regions

  datatype Walk = Walk(regs: seq<Region>, i: nat, base: nat)

  function Insert(regs: seq<Region>, i: nat, r: Region): seq<Region>
    requires i <= |regs|
  {
    regs[..i] + [r] + regs[i..]
  }

  /** The loop of `memblock_add_region` from entry i on. */
  function AddWalk(regs: seq<Region>, i: nat, base: nat, nend: nat): (w: Walk)
    requires i <= |regs|
    ensures w.i <= |w.regs| && |w.regs| >= |regs|
    decreases |regs| - i
  {
    if i >= |regs| || regs[i].base >= nend then Walk(regs, i, base)
    else if regs[i].End() <= base then AddWalk(regs, i + 1, base, nend)
    else
      var next := if regs[i].End() < nend then regs[i].End() else nend;
      if regs[i].base >= base
      then AddWalk(Insert(regs, i, Region(base, regs[i].base - base)), i + 2, next, nend)
      else AddWalk(regs, i + 1, next, nend)
  }

  /** The walk and the piece it inserts at the end: the regions and the index for the fusion. */
  function AddPieces(regs: seq<Region>, base: nat, nend: nat): (r: (seq<Region>, nat))
    ensures r.1 <= |r.0|
  {
    var w := AddWalk(regs, 0, base, nend);
    (if w.base < nend then Insert(w.regs, w.i, Region(w.base, nend - w.base)) else w.regs, w.i)
  }

  // --- fusion, on the whole array --------------------------------------------------------

  function Move(A: seq<Region>, dst: nat, src: nat, n: nat): (r: seq<Region>)
    requires dst + n <= |A| && src + n <= |A|
    ensures |r| == |A|
    ensures forall k :: 0 <= k < |A| ==> r[k] == if dst <= k < dst + n then A[k - dst + src] else A[k]
  {
    seq(|A|, k requires 0 <= k < |A| => if dst <= k < dst + n then A[k - dst + src] else A[k])
  }

  function FusePrev(A: seq<Region>, cnt: nat, index: nat): (r: seq<Region>)
    requires index <= cnt < |A|
    ensures |r| == |A|
  {
    if index > 0 && A[index - 1].End() == A[index].base then
      Move(A[index := Region(A[index - 1].base, A[index].size + A[index - 1].size)], index - 1, index, cnt - index)
    else A
  }

  function FuseNext(A: seq<Region>, cnt: nat, index: nat): (r: seq<Region>)
    requires index <= cnt < |A|
    ensures |r| == |A|
  {
    if index < cnt && A[index].End() == A[index + 1].base then
      Move(A[index + 1 := Region(A[index].base, A[index + 1].size + A[index].size)],
           index, index + 1, cnt - (index + 1))
    else A
  }

  /** `memblock_fusion_region`; the count stays as it is. */
  function Fuse(A: seq<Region>, cnt: nat, index: nat): (r: seq<Region>)
    requires index <= cnt < |A|
    ensures |r| == |A|
  {
    if cnt == 1 then A else FuseNext(FusePrev(A, cnt, index), cnt, index)
  }

  /** Two entries in use touch at the index of the fusion. */
  predicate Fires(A: seq<Region>, cnt: nat, index: nat)
    requires index <= cnt <= |A|
  {
    && cnt != 1 && index < cnt
    && ((index > 0 && A[index - 1].End() == A[index].base)
        || (index + 1 < cnt && A[index].End() == A[index + 1].base))
  }

  lemma QuietFusion(A: seq<Region>, cnt: nat, index: nat)
    requires index <= cnt < |A| && !Fires(A, cnt, index)
    ensures Fuse(A, cnt, index)[..cnt] == A[..cnt]
  {
  }

  /** A fusion leaves the last region in use twice. */
  lemma FusionDuplicates(A: seq<Region>, cnt: nat, index: nat)
    requires index <= cnt < |A| && Fires(A, cnt, index) && A[cnt - 1].size > 0
    ensures cnt >= 2
    ensures Fuse(A, cnt, index)[cnt - 2] == Fuse(A, cnt, index)[cnt - 1]
    ensures Fuse(A, cnt, index)[cnt - 1].size > 0
  {
    var P := FusePrev(A, cnt, index);
    var F := FuseNext(P, cnt, index);
    if index > 0 && A[index - 1].End() == A[index].base {
      assert P[cnt - 2] == P[cnt - 1] && P[cnt - 1].size > 0;
    }
  }

  // --- the walk ----------------------------------------------------------------------------

  /** Some region reaches from below `nend` to `nend` or beyond. */
  ghost predicate Reaches(regs: seq<Region>, nend: nat) {
    exists j :: 0 <= j < |regs| && regs[j].base < nend <= regs[j].End()
  }

  /** Some region touches [base, nend) from below, ends inside it, or begins at its end. */
  ghost predicate Abuts(regs: seq<Region>, base: nat, nend: nat) {
    exists j :: 0 <= j < |regs| && (base <= regs[j].End() < nend || regs[j].base == nend)
  }

  /** Entry i of R is entry q of R0; the walk has come as far as `base`. */
  ghost predicate Passing(R0: seq<Region>, R: seq<Region>, B: nat, E: nat, q: nat, i: nat, base: nat) {
    && q <= |R0| && i <= |R| && |R| - i == |R0| - q && q <= i && (q == 0 ==> i == 0)
    && B <= base <= E && Sorted(R)
    && R[i..] == R0[q..]
    && (q > 0 ==> R[i - 1] == R0[q - 1] && R0[q - 1].base < E)
    && (base < E ==> base == (if q > 0 && R0[q - 1].End() > B then R0[q - 1].End() else B))
    && (base < E ==> forall j :: 0 <= j < i ==> R[j].End() <= base)
    && (base == E ==> q > 0 && R0[q - 1].End() >= E)
  }

  /** R covers what R0 covers and [B, base). */
  ghost predicate Filled(R0: seq<Region>, R: seq<Region>, B: nat, base: nat) {
    forall a: nat :: Covers(R, a) <==> Covers(R0, a) || B <= a < base
  }

  ghost predicate Walking(R0: seq<Region>, R: seq<Region>, B: nat, E: nat, q: nat, i: nat, base: nat) {
    Passing(R0, R, B, E, q, i, base) && Filled(R0, R, B, base)
  }

  lemma InsertAt(R: seq<Region>, i: nat, r: Region, P: seq<Region>)
    requires i <= |R| && P == Insert(R, i, r)
    ensures |P| == |R| + 1
    ensures forall j {:trigger P[j]} :: 0 <= j < |P| ==> P[j] == if j < i then R[j] else if j == i then r else R[j - 1]
  {
  }

  lemma InsertCovers(R: seq<Region>, i: nat, r: Region)
    requires i <= |R|
    ensures forall a: nat :: Covers(Insert(R, i, r), a) <==> Covers(R, a) || Contains(r, a)
  {
    hide Insert, Covers;
    var P := Insert(R, i, r);
    InsertAt(R, i, r, P);
    forall a: nat
      ensures Covers(P, a) ==> Covers(R, a) || Contains(r, a)
      ensures Covers(R, a) || Contains(r, a) ==> Covers(P, a)
    {
      if Covers(P, a) {
        var j := FindCover(P, a);
        if j != i { IsCover(R, if j < i then j else j - 1, a); }
      }
      if Covers(R, a) {
        var j := FindCover(R, a);
        IsCover(P, if j < i then j else j + 1, a);
      }
      if Contains(r, a) { IsCover(P, i, a); }
    }
  }

  /** Region i is in the array already: the filled part grows up to its end. */
  lemma FillUp(R0: seq<Region>, R: seq<Region>, B: nat, base: nat, i: nat, next: nat)
    requires Filled(R0, R, B, base) && i < |R| && B <= base && R[i].base <= base && base <= next <= R[i].End()
    ensures Filled(R0, R, B, next)
  {
    hide Covers;
    forall a: nat | base <= a < next
      ensures Covers(R, a)
    {
      IsCover(R, i, a);
    }
  }

  lemma FillGap(R0: seq<Region>, R: seq<Region>, B: nat, base: nat, i: nat, to: nat)
    requires Filled(R0, R, B, base) && i <= |R| && B <= base <= to
    ensures Filled(R0, Insert(R, i, Region(base, to - base)), B, to)
  {
    hide Covers, Insert;
    InsertCovers(R, i, Region(base, to - base));
  }

  lemma InsertSorted(R: seq<Region>, i: nat, r: Region)
    requires i <= |R| && Sorted(R)
    requires forall j :: 0 <= j < i ==> R[j].End() <= r.base
    requires forall j :: i <= j < |R| ==> r.End() <= R[j].base
    ensures Sorted(Insert(R, i, r))
  {
    var R' := Insert(R, i, r);
    assert forall j :: 0 <= j < |R'| ==> R'[j] == if j < i then R[j] else if j == i then r else R[j - 1];
  }

  lemma Heads(R0: seq<Region>, R: seq<Region>, q: nat, i: nat)
    requires q <= |R0| && i < |R| && R[i..] == R0[q..]
    ensures q < |R0| && R[i] == R0[q] && R[i + 1..] == R0[q + 1..]
  {
    assert R[i] == R[i..][0] == R0[q..][0];
    assert R[i + 1..] == R[i..][1..] && R0[q + 1..] == R0[q..][1..];
  }

  lemma SkipRegion(R0: seq<Region>, R: seq<Region>, B: nat, E: nat, q: nat, i: nat, base: nat)
    requires Separated(R0) && Nonempty(R0) && Walking(R0, R, B, E, q, i, base)
    requires i < |R| && R[i].base < E && R[i].End() <= base
    ensures Walking(R0, R, B, E, q + 1, i + 1, base)
  {
    hide Filled;
    Heads(R0, R, q, i);
  }

  lemma OverlapRegion(R0: seq<Region>, R: seq<Region>, B: nat, E: nat, q: nat, i: nat, base: nat)
    requires Separated(R0) && Nonempty(R0) && Walking(R0, R, B, E, q, i, base)
    requires i < |R| && R[i].base < base < R[i].End() && R[i].base < E
    ensures Walking(R0, R, B, E, q + 1, i + 1, if R[i].End() < E then R[i].End() else E)
  {
    hide Filled;
    Heads(R0, R, q, i);
    assert q > 0 ==> R0[q - 1].End() < R0[q].base;
    FillUp(R0, R, B, base, i, if R[i].End() < E then R[i].End() else E);
  }

  lemma GapRegion(R0: seq<Region>, R: seq<Region>, B: nat, E: nat, q: nat, i: nat, base: nat)
    requires Separated(R0) && Nonempty(R0) && Walking(R0, R, B, E, q, i, base)
    requires i < |R| && base <= R[i].base < E
    ensures Walking(R0, Insert(R, i, Region(base, R[i].base - base)), B, E, q + 1, i + 2,
                    if R[i].End() < E then R[i].End() else E)
  {
    hide Filled, Insert;
    var gap, next := Region(base, R[i].base - base), if R[i].End() < E then R[i].End() else E;
    Heads(R0, R, q, i);
    InsertAt(R, i, gap, Insert(R, i, gap));
    GapPasses(R0, R, B, E, q, i, base, Insert(R, i, gap));
    FillGap(R0, R, B, base, i, R[i].base);
    FillUp(R0, Insert(R, i, gap), B, R[i].base, i + 1, next);
  }

  lemma GapPasses(R0: seq<Region>, R: seq<Region>, B: nat, E: nat, q: nat, i: nat, base: nat, P: seq<Region>)
    requires Separated(R0) && Nonempty(R0) && Passing(R0, R, B, E, q, i, base)
    requires i < |R| && base <= R[i].base < E && P == Insert(R, i, Region(base, R[i].base - base))
    ensures Passing(R0, P, B, E, q + 1, i + 2, if R[i].End() < E then R[i].End() else E)
  {
    hide Insert;
    var gap := Region(base, R[i].base - base);
    Heads(R0, R, q, i);
    InsertAt(R, i, gap, P);
    InsertSorted(R, i, gap);
    assert P[i + 2..] == R[i + 1..];
  }

  lemma Bounds(R0: seq<Region>, R: seq<Region>, B: nat, E: nat, q: nat, i: nat, base: nat)
    requires Walking(R0, R, B, E, q, i, base)
    ensures i <= |R| && base <= E && (i < |R| <==> q < |R0|) && (i < |R| ==> R[i] == R0[q])
  {
    if i < |R| { Heads(R0, R, q, i); }
  }

  lemma {:induction false} WalkEnds(R0: seq<Region>, R: seq<Region>, B: nat, E: nat, q: nat, i: nat, base: nat)
      returns (q': nat)
    requires Separated(R0) && Nonempty(R0) && Walking(R0, R, B, E, q, i, base)
    ensures var w := AddWalk(R, i, base, E);
      Walking(R0, w.regs, B, E, q', w.i, w.base) && (q' < |R0| ==> R0[q'].base >= E)
    decreases |R| - i, 1
  {
    Bounds(R0, R, B, E, q, i, base);
    hide Separated, Nonempty, Walking, Insert;
    if i >= |R| || R[i].base >= E {
      q' := q;
    } else {
      q' := WalkOn(R0, R, B, E, q, i, base);
    }
  }

  lemma {:induction false} WalkOn(R0: seq<Region>, R: seq<Region>, B: nat, E: nat, q: nat, i: nat, base: nat)
      returns (q': nat)
    requires Separated(R0) && Nonempty(R0) && Walking(R0, R, B, E, q, i, base) && i < |R| && R[i].base < E
    ensures var w := AddWalk(R, i, base, E);
      Walking(R0, w.regs, B, E, q', w.i, w.base) && (q' < |R0| ==> R0[q'].base >= E)
    decreases |R| - i, 0
  {
    hide Separated, Nonempty, Walking, Insert;
    var next := if R[i].End() < E then R[i].End() else E;
    if R[i].End() <= base {
      SkipRegion(R0, R, B, E, q, i, base);
      q' := WalkEnds(R0, R, B, E, q + 1, i + 1, base);
    } else if R[i].base >= base {
      var R' := Inserted(R, i, base);
      GapRegion(R0, R, B, E, q, i, base);
      q' := WalkEnds(R0, R', B, E, q + 1, i + 2, next);
    } else {
      OverlapRegion(R0, R, B, E, q, i, base);
      q' := WalkEnds(R0, R, B, E, q + 1, i + 1, next);
    }
  }

  lemma Inserted(R: seq<Region>, i: nat, base: nat) returns (R': seq<Region>)
    requires i < |R| && base <= R[i].base
    ensures R' == Insert(R, i, Region(base, R[i].base - base)) && |R'| == |R| + 1
  {
    R' := Insert(R, i, Region(base, R[i].base - base));
  }

  lemma Before(R: seq<Region>, q: nat, j: nat)
    requires Separated(R) && j < q <= |R|
    ensures R[j].End() <= R[q - 1].End()
  {
    assert j < q - 1 ==> R[j].End() < R[q - 1].base;
  }

  lemma After(R: seq<Region>, q: nat, j: nat)
    requires Separated(R) && q <= j < |R|
    ensures R[q].base <= R[j].base && (q < j ==> R[q].End() < R[j].base)
  {
  }

  /** The regions behind entry i are those of R0 from q on. */
  lemma RestOf(R0: seq<Region>, R: seq<Region>, B: nat, E: nat, q: nat, i: nat, base: nat, j: nat)
    requires Passing(R0, R, B, E, q, i, base) && i <= j < |R|
    ensures q + j - i < |R0| && R[j] == R0[q + j - i]
  {
    assert R[j] == R[i..][j - i] == R0[q..][j - i];
  }

  /** Where the regions of R0 lie when the walk has ended below E. */
  lemma Around(R0: seq<Region>, R: seq<Region>, B: nat, E: nat, q: nat, i: nat, base: nat, j: nat)
    requires Separated(R0) && Nonempty(R0) && Passing(R0, R, B, E, q, i, base)
    requires base < E && (q < |R0| ==> R0[q].base >= E) && j < |R0|
    ensures !(R0[j].base < E <= R0[j].End())
    ensures B <= R0[j].End() < E ==> q > 0 && R0[q - 1].End() == base
    ensures R0[j].base == E ==> q < |R0| && R0[q].base == E
    ensures j >= q ==> R0[j].base >= E
  {
    if j < q { Before(R0, q, j); } else { After(R0, q, j); }
  }

  /** The last piece is inserted: the fusion fires exactly when the range abuts a region. */
  lemma TailFires(R0: seq<Region>, R: seq<Region>, B: nat, E: nat, q: nat, i: nat, base: nat, P: seq<Region>)
    requires Separated(R0) && Nonempty(R0) && Walking(R0, R, B, E, q, i, base)
    requires base < E && (q < |R0| ==> R0[q].base >= E)
    requires P == Insert(R, i, Region(base, E - base))
    ensures Sorted(P) && |P| == |R| + 1 && P[|P| - 1].size > 0
    ensures !Reaches(R0, E) && (Fires(P, |P|, i) <==> Abuts(R0, B, E))
  {
    hide Separated, Filled, Insert, Sorted, Reaches, Abuts, Fires;
    TailAround(R0, R, B, E, q, i, base);
    TailStands(R0, R, B, E, q, i, base, P);
    TailVerdict(R0, R, B, E, q, i, base, P);
  }

  lemma TailAround(R0: seq<Region>, R: seq<Region>, B: nat, E: nat, q: nat, i: nat, base: nat)
    requires Separated(R0) && Nonempty(R0) && Passing(R0, R, B, E, q, i, base)
    requires base < E && (q < |R0| ==> R0[q].base >= E)
    ensures !Reaches(R0, E)
    ensures Abuts(R0, B, E) <==> (q > 0 && R0[q - 1].End() == base) || (q < |R0| && R0[q].base == E)
  {
    hide Separated, Nonempty, Passing;
    AroundEnds(R0, R, B, E, q, i, base);
    forall j: nat | j < |R0|
      ensures !(R0[j].base < E <= R0[j].End())
      ensures B <= R0[j].End() < E ==> q > 0 && R0[q - 1].End() == base
      ensures R0[j].base == E ==> q < |R0| && R0[q].base == E
    {
      Around(R0, R, B, E, q, i, base, j);
    }
  }

  lemma AroundEnds(R0: seq<Region>, R: seq<Region>, B: nat, E: nat, q: nat, i: nat, base: nat)
    requires Passing(R0, R, B, E, q, i, base)
    ensures q <= |R0| && B <= base
  {
  }

  lemma TailStands(R0: seq<Region>, R: seq<Region>, B: nat, E: nat, q: nat, i: nat, base: nat, P: seq<Region>)
    requires Separated(R0) && Nonempty(R0) && Passing(R0, R, B, E, q, i, base)
    requires base < E && (q < |R0| ==> R0[q].base >= E) && P == Insert(R, i, Region(base, E - base))
    ensures Sorted(P) && |P| == |R| + 1 && P[|P| - 1].size > 0
  {
    hide Separated, Insert;
    var tail := Region(base, E - base);
    InsertAt(R, i, tail, P);
    forall j: nat | i <= j < |R|
      ensures tail.End() <= R[j].base && R[j].size > 0
    {
      RestOf(R0, R, B, E, q, i, base, j);
      Around(R0, R, B, E, q, i, base, q + j - i);
    }
    InsertSorted(R, i, tail);
  }

  lemma TailVerdict(R0: seq<Region>, R: seq<Region>, B: nat, E: nat, q: nat, i: nat, base: nat, P: seq<Region>)
    requires Passing(R0, R, B, E, q, i, base) && base < E && P == Insert(R, i, Region(base, E - base))
    ensures |P| == |R| + 1 && i <= |P|
    ensures Fires(P, |P|, i) <==> (q > 0 && R0[q - 1].End() == base) || (q < |R0| && R0[q].base == E)
  {
    hide Insert;
    InsertAt(R, i, Region(base, E - base), P);
    if i < |R| { Heads(R0, R, q, i); }
    assert i > 0 ==> P[i - 1] == R[i - 1];
    assert i < |R| ==> P[i + 1] == R[i];
  }

  lemma NoTail(R0: seq<Region>, R: seq<Region>, B: nat, E: nat, q: nat, i: nat)
    requires Separated(R0) && Nonempty(R0) && Walking(R0, R, B, E, q, i, E)
    ensures Reaches(R0, E) && !Fires(R, |R|, i) && (i < |R| ==> R[|R| - 1].size > 0)
  {
    Bounds(R0, R, B, E, q, i, E);
    assert forall j :: i <= j < |R| ==> R[j] == R[i..][j - i] == R0[q..][j - i] == R0[q + j - i];
  }

  /** The pieces are right: sorted, and exactly the old regions and the new range. */
  lemma PiecesAreRight(R: seq<Region>, B: nat, E: nat)
    requires Separated(R) && Nonempty(R) && B < E
    ensures var (P, i) := AddPieces(R, B, E);
      && Sorted(P) && i <= |P|
      && (forall a: nat :: Covers(P, a) <==> Covers(R, a) || B <= a < E)
      && (Fires(P, |P|, i) <==> !Reaches(R, E) && Abuts(R, B, E))
      && (i < |P| ==> P[|P| - 1].size > 0)
  {
    WalkStarts(R, B, E);
    var q := WalkEnds(R, R, B, E, 0, 0, B);
    var w := AddWalk(R, 0, B, E);
    PiecesFollow(R, w, B, E, q);
  }

  lemma WalkStarts(R: seq<Region>, B: nat, E: nat)
    requires Separated(R) && B < E
    ensures Walking(R, R, B, E, 0, 0, B)
  {
  }

  lemma PiecesFollow(R: seq<Region>, w: Walk, B: nat, E: nat, q: nat)
    requires Separated(R) && Nonempty(R) && B < E && w == AddWalk(R, 0, B, E)
    requires Walking(R, w.regs, B, E, q, w.i, w.base) && (q < |R| ==> R[q].base >= E)
    ensures var (P, i) := AddPieces(R, B, E);
      && Sorted(P) && i <= |P|
      && (forall a: nat :: Covers(P, a) <==> Covers(R, a) || B <= a < E)
      && (Fires(P, |P|, i) <==> !Reaches(R, E) && Abuts(R, B, E))
      && (i < |P| ==> P[|P| - 1].size > 0)
  {
    hide AddWalk, Fires, Reaches, Abuts, Covers, Separated, Nonempty;
    var (P, i) := AddPieces(R, B, E);
    if w.base < E {
      TailFires(R, w.regs, B, E, q, i, w.base, P);
      InsertCovers(w.regs, i, Region(w.base, E - w.base));
    } else {
      NoTail(R, w.regs, B, E, q, i);
    }
  }

  /** The exact condition for adding a nonempty range to separated regions: the array in use ends
      up sorted if and only if a region already reaches the end of the range, or no region
      abuts it.  If so, it is the sorted pieces of the old regions and the new range. */
  lemma AddIsRightExactlyWhen(A: seq<Region>, cnt: nat, B: nat, E: nat)
    requires cnt <= |A| && Separated(A[..cnt]) && Nonempty(A[..cnt]) && B < E
    requires |AddPieces(A[..cnt], B, E).0| < |A|
    ensures var (P, i) := AddPieces(A[..cnt], B, E);
      var F := Fuse(P + A[|P|..], |P|, i)[..|P|];
      && (Sorted(F) <==> Reaches(A[..cnt], E) || !Abuts(A[..cnt], B, E))
      && (Sorted(F) ==> F == P)
      && forall a: nat :: Covers(F, a) <==> Covers(A[..cnt], a) || B <= a < E
  {
    hide AddPieces, Separated, Nonempty, Reaches, Abuts, Covers;
    var R := A[..cnt];
    var (P, i) := AddPieces(R, B, E);
    PiecesAreRight(R, B, E);
    FusionVerdict(P + A[|P|..], P, i);
    AddCovers(A, cnt, B, E);
  }

  /** Where entry j comes from after entry l and the next have given way to their union and the later
      ones have moved down. */
  function JoinedEntry(A: seq<Region>, cnt: nat, l: nat, j: nat): Region
    requires l + 1 <= cnt < |A| && j < cnt
  {
    var joined := Region(A[l].base, A[l + 1].size + A[l].size);
    if j < l then A[j]
    else if j + 1 < cnt then (if j == l then joined else A[j + 1])
    else if j == l + 1 then joined else A[j]
  }

  /** Entry l joined with the next, in the whole array. */
  function JoinNext(A: seq<Region>, cnt: nat, l: nat): (J: seq<Region>)
    requires l + 1 < cnt < |A|
    ensures |J| == |A| && forall j :: 0 <= j < cnt ==> J[..cnt][j] == JoinedEntry(A, cnt, l, j)
  {
    Move(A[l + 1 := Region(A[l].base, A[l + 1].size + A[l].size)], l, l + 1, cnt - (l + 1))
  }

  lemma JoinedEntries(A: seq<Region>, cnt: nat, l: nat, J: seq<Region>)
    requires l + 1 <= cnt < |A|
    requires J == Move(A[l + 1 := Region(A[l].base, A[l + 1].size + A[l].size)], l, l + 1, cnt - (l + 1))
    ensures |J| == |A| && forall j :: 0 <= j < cnt ==> J[..cnt][j] == JoinedEntry(A, cnt, l, j)
  {
  }

  /** Entries that touch may be joined: the same is covered. */
  lemma JoinCovers(A: seq<Region>, cnt: nat, l: nat, J: seq<Region>)
    requires l + 1 <= cnt < |A| && A[l].End() == A[l + 1].base
    requires J == Move(A[l + 1 := Region(A[l].base, A[l + 1].size + A[l].size)], l, l + 1, cnt - (l + 1))
    ensures forall a: nat :: Covers(J[..cnt], a) <==> Covers(A[..cnt], a)
  {
    JoinedEntries(A, cnt, l, J);
    hide Covers, Move;
    forall a: nat
      ensures Covers(J[..cnt], a) <==> Covers(A[..cnt], a)
    {
      if Covers(J[..cnt], a) {
        var j := FindCover(J[..cnt], a);
        JoinedFrom(A, cnt, l, j, a);
      }
      if Covers(A[..cnt], a) {
        var j := FindCover(A[..cnt], a);
        IsCover(J[..cnt], if l + 1 < cnt && j > l then j - 1 else j, a);
      }
    }
  }

  lemma JoinedFrom(A: seq<Region>, cnt: nat, l: nat, j: nat, a: nat)
    requires l + 1 <= cnt < |A| && j < cnt && A[l].End() == A[l + 1].base && Contains(JoinedEntry(A, cnt, l, j), a)
    ensures Covers(A[..cnt], a)
  {
    hide Covers;
    if j < l || (j + 1 >= cnt && j != l + 1) {
      IsCover(A[..cnt], j, a);
    } else if j + 1 < cnt && j > l {
      IsCover(A[..cnt], j + 1, a);
    } else {
      IsCover(A[..cnt], if a < A[l].End() then l else l + 1, a);
    }
  }

  /** A fusion covers what was covered, whether it fires or not. */
  lemma FusionCovers(A: seq<Region>, cnt: nat, index: nat)
    requires index <= cnt < |A|
    ensures forall a: nat :: Covers(Fuse(A, cnt, index)[..cnt], a) <==> Covers(A[..cnt], a)
  {
    var P := FusePrev(A, cnt, index);
    hide Covers, Move;
    if index > 0 && A[index - 1].End() == A[index].base { JoinCovers(A, cnt, index - 1, P); }
    if index < cnt && P[index].End() == P[index + 1].base { JoinCovers(P, cnt, index, FuseNext(P, cnt, index)); }
  }

  /** Behind entry i no entry touches the next. */
  ghost predicate SeparatedBehind(P: seq<Region>, i: nat) {
    forall j, k :: i < j < k < |P| ==> P[j].End() < P[k].base
  }

  lemma TailSeparated(R0: seq<Region>, R: seq<Region>, B: nat, E: nat, q: nat, i: nat, base: nat, r: Region)
    requires Separated(R0) && Passing(R0, R, B, E, q, i, base)
    ensures SeparatedBehind(Insert(R, i, r), i)
  {
    PassingIndex(R0, R, B, E, q, i, base);
    hide Separated, Passing, Insert;
    var P := Insert(R, i, r);
    InsertAt(R, i, r, P);
    forall j, k | i < j < k < |P|
      ensures P[j].End() < P[k].base
    {
      RestOf(R0, R, B, E, q, i, base, j - 1);
      RestOf(R0, R, B, E, q, i, base, k - 1);
      InOrder(R0, q + j - 1 - i, q + k - 1 - i);
    }
  }

  lemma PassingIndex(R0: seq<Region>, R: seq<Region>, B: nat, E: nat, q: nat, i: nat, base: nat)
    requires Passing(R0, R, B, E, q, i, base)
    ensures i <= |R|
  {
  }

  lemma InOrder(R: seq<Region>, j: nat, k: nat)
    requires Separated(R) && j < k < |R|
    ensures R[j].End() < R[k].base
  {
  }

  /** What a fusion that fires finds: the old regions behind the range, of which no two touch. */
  lemma FiresBeforeSeparated(R: seq<Region>, B: nat, E: nat)
    requires Separated(R) && Nonempty(R) && B < E
    ensures var (P, i) := AddPieces(R, B, E);
      i <= |P| && (Fires(P, |P|, i) ==> SeparatedBehind(P, i))
  {
    WalkStarts(R, B, E);
    var q := WalkEnds(R, R, B, E, 0, 0, B);
    var w := AddWalk(R, 0, B, E);
    hide AddWalk, Fires, Separated, Nonempty, SeparatedBehind;
    if w.base < E {
      TailSeparated(R, w.regs, B, E, q, w.i, w.base, Region(w.base, E - w.base));
    } else {
      NoTail(R, w.regs, B, E, q, w.i);
    }
  }

  /** Entry l and the next joined. */
  function Joined(P: seq<Region>, l: nat): seq<Region>
    requires l + 1 < |P|
  {
    P[..l] + [Region(P[l].base, P[l].size + P[l + 1].size)] + P[l + 2..]
  }

  lemma JoinedAt(P: seq<Region>, l: nat, j: nat)
    requires l + 1 < |P| && P[l].End() == P[l + 1].base && j + 1 < |P|
    ensures |Joined(P, l)| == |P| - 1
    ensures Joined(P, l)[j].base == P[if j <= l then j else j + 1].base
    ensures Joined(P, l)[j].End() == P[if j < l then j else j + 1].End()
  {
  }

  lemma JoinedIsSorted(P: seq<Region>, l: nat)
    requires l + 1 < |P| && Sorted(P) && P[l].End() == P[l + 1].base
    ensures Sorted(Joined(P, l))
  {
    JoinedAt(P, l, 0);
    var J := Joined(P, l);
    hide Joined;
    forall j, k | 0 <= j < k < |J|
      ensures J[j].End() <= J[k].base
    {
      JoinedAt(P, l, j);
      JoinedAt(P, l, k);
    }
  }

  lemma JoinedByEntry(P: seq<Region>, A: seq<Region>, l: nat, J: seq<Region>)
    requires l + 1 < |P| < |A| && A[..|P|] == P && |J| == |A|
    requires forall j :: 0 <= j < |P| ==> J[..|P|][j] == JoinedEntry(A, |P|, l, j)
    ensures J[..|P| - 1] == Joined(P, l) && J[|P| - 1] == J[|P| - 2]
  {
    var cnt, N := |P|, Joined(P, l);
    forall j: nat | j < cnt
      ensures J[j] == N[if j + 1 < cnt then j else j - 1]
    {
      assert J[j] == J[..cnt][j] == JoinedEntry(A, cnt, l, j);
      assert A[l] == P[l] && A[l + 1] == P[l + 1] && A[j] == P[j] && (j + 1 < cnt ==> A[j + 1] == P[j + 1]);
    }
    assert N == J[..cnt - 1];
  }

  /** After a fusion with the region below, the entry at the index is an old region or the last one
      again, and touches nothing. */
  lemma NoSecondJoin(A: seq<Region>, P: seq<Region>, i: nat, F: seq<Region>)
    requires 0 < i < |P| < |A| && A[..|P|] == P && SeparatedBehind(P, i) && P[|P| - 1].size > 0
    requires |F| == |A| && forall j :: 0 <= j < |P| ==> F[..|P|][j] == JoinedEntry(A, |P|, i - 1, j)
    ensures FuseNext(F, |P|, i)[..|P|] == F[..|P|]
  {
    var cnt := |P|;
    if i + 1 < cnt {
      assert A[i + 1] == P[i + 1] && A[cnt - 1] == P[cnt - 1];
      assert F[i] == F[..cnt][i] && F[i + 1] == F[..cnt][i + 1];
      assert i + 2 < cnt ==> A[i + 2] == P[i + 2];
      assert F[i].End() != F[i + 1].base;
    }
  }

  /** A fusion that fires joins two entries, the range and the region below it if they touch, else the
      range and the region above, and leaves the last entry twice. */
  lemma FiredFusionJoins(A: seq<Region>, P: seq<Region>, i: nat) returns (l: nat)
    requires i <= |P| < |A| && A[..|P|] == P && Fires(P, |P|, i) && SeparatedBehind(P, i)
    requires P[|P| - 1].size > 0
    ensures l == (if i > 0 && P[i - 1].End() == P[i].base then i - 1 else i)
    ensures l + 1 < |P| && P[l].End() == P[l + 1].base
    ensures Fuse(A, |P|, i)[..|P| - 1] == Joined(P, l)
    ensures Fuse(A, |P|, i)[|P| - 1] == Fuse(A, |P|, i)[|P| - 2]
  {
    var cnt := |P|;
    l := if i > 0 && P[i - 1].End() == P[i].base then i - 1 else i;
    var J := OneJoin(A, P, i, l);
    hide Fuse, JoinedEntry, Joined, SeparatedBehind;
    JoinedByEntry(P, A, l, J);
    SamePrefix(Fuse(A, cnt, i), J, cnt);
  }

  /** The one join of a fusion that fires. */
  lemma OneJoin(A: seq<Region>, P: seq<Region>, i: nat, l: nat) returns (J: seq<Region>)
    requires i <= |P| < |A| && A[..|P|] == P && Fires(P, |P|, i) && SeparatedBehind(P, i)
    requires P[|P| - 1].size > 0
    requires l == if i > 0 && P[i - 1].End() == P[i].base then i - 1 else i
    ensures l + 1 < |P| && |J| == |A| && Fuse(A, |P|, i)[..|P|] == J[..|P|]
    ensures forall j :: 0 <= j < |P| ==> J[..|P|][j] == JoinedEntry(A, |P|, l, j)
  {
    hide JoinedEntry, SeparatedBehind, Move;
    assert A[i] == P[i] && (i > 0 ==> A[i - 1] == P[i - 1]) && (i + 1 < |P| ==> A[i + 1] == P[i + 1]);
    J := JoinNext(A, |P|, l);
    assert FusePrev(A, |P|, i) == if l < i then J else A;
    hide FusePrev, FuseNext, Fires;
    if l < i { NoSecondJoin(A, P, i, J); } else { FuseNextIs(A, |P|, i, J); }
    FuseIs(A, |P|, i);
  }

  lemma FuseIs(A: seq<Region>, cnt: nat, i: nat)
    requires i <= cnt < |A| && cnt != 1
    ensures Fuse(A, cnt, i) == FuseNext(FusePrev(A, cnt, i), cnt, i)
  {
  }

  lemma FuseNextIs(A: seq<Region>, cnt: nat, i: nat, J: seq<Region>)
    requires i + 1 < cnt < |A| && A[i].End() == A[i + 1].base && J == JoinNext(A, cnt, i)
    ensures FuseNext(A, cnt, i) == J
  {
  }

  lemma SamePrefix(F: seq<Region>, J: seq<Region>, cnt: nat)
    requires 2 <= cnt <= |F| == |J| && F[..cnt] == J[..cnt]
    ensures F[..cnt - 1] == J[..cnt - 1] && F[cnt - 1] == J[cnt - 1] && F[cnt - 2] == J[cnt - 2]
  {
    assert forall j :: 0 <= j < cnt ==> F[j] == F[..cnt][j] == J[..cnt][j] == J[j];
  }

  /** Sorted but for the last region, which is there twice. */
  ghost predicate LastTwice(F: seq<Region>) {
    |F| >= 2 && F[|F| - 1] == F[|F| - 2] && Sorted(F[..|F| - 1])
  }

  /** F covers exactly R and [B, E), even without its last region, which it has twice. */
  ghost predicate RightButLast(F: seq<Region>, R: seq<Region>, B: nat, E: nat) {
    LastTwice(F) && forall a: nat :: Covers(F[..|F| - 1], a) <==> Covers(R, a) || B <= a < E
  }

  /** An add that abuts a region, but is not held by one, is right but for its last entry: without it
      the array is sorted and covers exactly the old regions and the range; it is there twice. */
  lemma AbuttingAddRepeatsLast(A: seq<Region>, cnt: nat, B: nat, E: nat)
    requires cnt <= |A| && Separated(A[..cnt]) && Nonempty(A[..cnt]) && B < E
    requires |AddPieces(A[..cnt], B, E).0| < |A| && Abuts(A[..cnt], B, E) && !Reaches(A[..cnt], E)
    ensures var (P, i) := AddPieces(A[..cnt], B, E);
      RightButLast(Fuse(P + A[|P|..], |P|, i)[..|P|], A[..cnt], B, E)
  {
    hide AddPieces, Fuse, Separated, Nonempty, Covers, Sorted, Reaches, Abuts, RightButLast;
    var (P, i) := AddPieces(A[..cnt], B, E);
    AddCovers(A, cnt, B, E);
    AbuttingFused(P + A[|P|..], A[..cnt], B, E, P, i);
  }

  lemma AbuttingFused(W: seq<Region>, R: seq<Region>, B: nat, E: nat, P: seq<Region>, i: nat)
    requires Separated(R) && Nonempty(R) && B < E && Abuts(R, B, E) && !Reaches(R, E)
    requires (P, i) == AddPieces(R, B, E) && i <= |P| < |W| && W[..|P|] == P
    requires forall a: nat :: Covers(Fuse(W, |P|, i)[..|P|], a) <==> Covers(R, a) || B <= a < E
    ensures RightButLast(Fuse(W, |P|, i)[..|P|], R, B, E)
  {
    hide AddPieces, Fuse, Separated, Nonempty, Covers, Sorted, Fires, Reaches, Abuts, SeparatedBehind, Joined;
    hide RightButLast;
    PiecesAreRight(R, B, E);
    FiresBeforeSeparated(R, B, E);
    SameFires(W, P, i);
    var l := FiredFusionJoins(W, P, i);
    JoinedIsSorted(P, l);
    JoinedThenLast(P, l, Fuse(W, |P|, i), Fuse(W, |P|, i)[..|P|], R, B, E);
  }

  lemma JoinedThenLast(P: seq<Region>, l: nat, G: seq<Region>, F: seq<Region>, R: seq<Region>, B: nat, E: nat)
    requires l + 1 < |P| <= |G| && F == G[..|P|] && Sorted(Joined(P, l))
    requires G[..|P| - 1] == Joined(P, l) && G[|P| - 1] == G[|P| - 2]
    requires forall a: nat :: Covers(F, a) <==> Covers(R, a) || B <= a < E
    ensures RightButLast(F, R, B, E)
  {
    hide Covers, Sorted, Joined;
    var most := F[..|F| - 1];
    assert most == G[..|P| - 1] == Joined(P, l);
    LastIsRepeated(F);
    assert LastTwice(F);
    forall a: nat
      ensures Covers(most, a) <==> Covers(R, a) || B <= a < E
    {
      assert Covers(most, a) <==> Covers(F, a);
    }
  }

  lemma LastIsRepeated(F: seq<Region>)
    requires |F| >= 2 && F[|F| - 1] == F[|F| - 2]
    ensures forall a: nat :: Covers(F[..|F| - 1], a) <==> Covers(F, a)
  {
    hide Covers;
    forall a: nat
      ensures Covers(F[..|F| - 1], a) <==> Covers(F, a)
    {
      if Covers(F[..|F| - 1], a) {
        var j := FindCover(F[..|F| - 1], a);
        IsCover(F, j, a);
      }
      if Covers(F, a) {
        var j := FindCover(F, a);
        IsCover(F[..|F| - 1], if j == |F| - 1 then j - 1 else j, a);
      }
    }
  }

  /** Sorted or not, the array covers exactly the old regions and the range after an add. */
  lemma AddCovers(A: seq<Region>, cnt: nat, B: nat, E: nat)
    requires cnt <= |A| && Separated(A[..cnt]) && Nonempty(A[..cnt]) && B < E
    requires |AddPieces(A[..cnt], B, E).0| < |A|
    ensures var (P, i) := AddPieces(A[..cnt], B, E);
      forall a: nat :: Covers(Fuse(P + A[|P|..], |P|, i)[..|P|], a) <==> Covers(A[..cnt], a) || B <= a < E
  {
    hide AddPieces, Fuse, Separated, Nonempty, Covers, Sorted, Fires, Reaches, Abuts;
    var (P, i) := AddPieces(A[..cnt], B, E);
    PiecesAreRight(A[..cnt], B, E);
    FusionCovers(P + A[|P|..], |P|, i);
    assert (P + A[|P|..])[..|P|] == P;
  }

  lemma FusionVerdict(A: seq<Region>, P: seq<Region>, i: nat)
    requires i <= |P| < |A| && A[..|P|] == P && Sorted(P) && (i < |P| ==> P[|P| - 1].size > 0)
    ensures var F := Fuse(A, |P|, i)[..|P|];
      (Sorted(F) <==> !Fires(P, |P|, i)) && (Sorted(F) ==> F == P)
  {
    SameFires(A, P, i);
    hide Fuse, Fires, Sorted;
    if Fires(A, |P|, i) {
      FiredIsUnsorted(A, |P|, i, Fuse(A, |P|, i));
    } else {
      QuietFusion(A, |P|, i);
    }
  }

  lemma SameFires(A: seq<Region>, P: seq<Region>, i: nat)
    requires i <= |P| < |A| && A[..|P|] == P
    ensures Fires(A, |P|, i) <==> Fires(P, |P|, i)
    ensures i < |P| ==> A[|P| - 1] == P[|P| - 1]
    ensures Fires(P, |P|, i) ==> i < |P|
  {
    assert forall j :: 0 <= j < |P| ==> A[j] == P[j];
  }

  lemma FiredIsUnsorted(A: seq<Region>, cnt: nat, i: nat, G: seq<Region>)
    requires i <= cnt < |A| && Fires(A, cnt, i) && A[cnt - 1].size > 0 && G == Fuse(A, cnt, i)
    ensures |G| == |A| && !Sorted(G[..cnt])
  {
    hide Fuse, Fires, Sorted;
    FusionDuplicates(A, cnt, i);
    TwiceUnsorted(G[..cnt]);
  }

  lemma TwiceUnsorted(F: seq<Region>)
    requires |F| >= 2 && F[|F| - 2] == F[|F| - 1] && F[|F| - 1].size > 0
    ensures !Sorted(F)
  {
    assert F[|F| - 2].End() > F[|F| - 1].base;
  }

  /** Adding the second page of memory to the first one leaves both pages in the array twice. */
  lemma TwoPagesTwice(rest: seq<Region>)
    requires rest != []
    ensures var (P, i) := AddPieces([Region(0, 0x1000)], 0x1000, 0x2000);
      && |P| == 2 && i == 1
      && Fuse(P + rest, 2, 1)[..2] == [Region(0, 0x2000), Region(0, 0x2000)]
  {
    var R, P := [Region(0, 0x1000)], [Region(0, 0x1000), Region(0x1000, 0x1000)];
    WalkTurn(R, 0, 0x1000, 0x2000);
    WalkTurn(R, 1, 0x1000, 0x2000);
    PiecesOfWalk(R, 0x1000, 0x2000);
    assert Insert(R, 1, Region(0x1000, 0x1000)) == P;
    PairFused(P + rest);
  }

  lemma PairFused(A: seq<Region>)
    requires |A| > 2 && A[..2] == [Region(0, 0x1000), Region(0x1000, 0x1000)]
    ensures Fuse(A, 2, 1)[..2] == [Region(0, 0x2000), Region(0, 0x2000)]
  {
    assert A[0] == A[..2][0] && A[1] == A[..2][1];
    var F := FusePrev(A, 2, 1);
    assert F[0] == F[1] == Region(0, 0x2000);
    assert Fuse(A, 2, 1) == FuseNext(F, 2, 1);
  }

  /** Adding the page between two regions joins it to the lower one, never to both. */
  lemma BetweenTwoJoinsOne(rest: seq<Region>)
    requires rest != []
    ensures var (P, i) := AddPieces([Region(0, 0x1000), Region(0x2000, 0x1000)], 0x1000, 0x2000);
      && |P| == 3 && i == 1
      && Fuse(P + rest, 3, 1)[..3] == [Region(0, 0x2000), Region(0x2000, 0x1000), Region(0x2000, 0x1000)]
  {
    var R := [Region(0, 0x1000), Region(0x2000, 0x1000)];
    var P := [Region(0, 0x1000), Region(0x1000, 0x1000), Region(0x2000, 0x1000)];
    WalkTurn(R, 0, 0x1000, 0x2000);
    WalkTurn(R, 1, 0x1000, 0x2000);
    PiecesOfWalk(R, 0x1000, 0x2000);
    assert Insert(R, 1, Region(0x1000, 0x1000)) == P;
    BetweenFused(P + rest);
  }

  lemma BetweenFused(A: seq<Region>)
    requires |A| > 3 && A[..3] == [Region(0, 0x1000), Region(0x1000, 0x1000), Region(0x2000, 0x1000)]
    ensures Fuse(A, 3, 1)[..3] == [Region(0, 0x2000), Region(0x2000, 0x1000), Region(0x2000, 0x1000)]
  {
    assert A[0] == A[..3][0] && A[1] == A[..3][1] && A[2] == A[..3][2];
    var F := FusePrev(A, 3, 1);
    assert F[0] == Region(0, 0x2000) && F[1] == F[2] == Region(0x2000, 0x1000);
    assert Fuse(A, 3, 1) == FuseNext(F, 3, 1);
  }

  /** A range that neither overlaps nor abuts any region keeps the regions separated. */
  ghost predicate Clear(R: seq<Region>, B: nat, E: nat) {
    forall j :: 0 <= j < |R| ==> R[j].End() < B || E < R[j].base
  }

  lemma ClearAddKeepsSeparated(R: seq<Region>, B: nat, E: nat)
    requires Separated(R) && Nonempty(R) && B < E && Clear(R, B, E)
    ensures var (P, i) := AddPieces(R, B, E);
      Separated(P) && Nonempty(P) && |P| == |R| + 1 && !Reaches(R, E) && !Abuts(R, B, E)
  {
    hide Reaches, Abuts, AddWalk, Separated, Nonempty, Clear, AddPieces, Insert;
    ClearIsClear(R, B, E);
    var q := ClearWalk(R, B, E, 0);
    ClearPieces(R, B, E, q);
    InsertSeparated(R, q, Region(B, E - B));
  }

  /** So a clear add has nothing to fuse, and it leaves one region more, as tidy as before. */
  lemma ClearAddIsTidy(A: seq<Region>, cnt: nat, B: nat, E: nat)
    requires cnt <= |A| && Separated(A[..cnt]) && Nonempty(A[..cnt]) && B < E && Clear(A[..cnt], B, E)
    requires |AddPieces(A[..cnt], B, E).0| < |A|
    ensures var (P, i) := AddPieces(A[..cnt], B, E);
      && |P| == cnt + 1 && Fuse(P + A[|P|..], |P|, i)[..|P|] == P
      && Separated(P) && Nonempty(P)
      && (PageAligned(A[..cnt]) && B % PAGE_SIZE == 0 && E % PAGE_SIZE == 0 ==> PageAligned(P))
      && forall a: nat :: Covers(P, a) <==> Covers(A[..cnt], a) || B <= a < E
  {
    hide AddPieces, AddWalk, Insert, Fires, Fuse, Reaches, Abuts;
    hide Separated, Nonempty, Clear, PageAligned, Sorted, Covers;
    var R := A[..cnt];
    var (P, i) := AddPieces(R, B, E);
    PiecesAreRight(R, B, E);
    ClearAddKeepsSeparated(R, B, E);
    SameFires(P + A[|P|..], P, i);
    QuietFusion(P + A[|P|..], |P|, i);
    var q := ClearWalk(R, B, E, 0);
    ClearPieces(R, B, E, q);
    if PageAligned(R) && B % PAGE_SIZE == 0 && E % PAGE_SIZE == 0 {
      InsertAligned(R, q, Region(B, E - B));
    }
  }

  lemma InsertAligned(R: seq<Region>, i: nat, r: Region)
    requires i <= |R| && PageAligned(R) && r.base % PAGE_SIZE == 0 && r.size % PAGE_SIZE == 0
    ensures PageAligned(Insert(R, i, r))
  {
    InsertAt(R, i, r, Insert(R, i, r));
  }

  lemma ClearPieces(R: seq<Region>, B: nat, E: nat, q: nat)
    requires B < E && q <= |R| && AddWalk(R, 0, B, E) == Walk(R, q, B)
    ensures AddPieces(R, B, E) == (Insert(R, q, Region(B, E - B)), q)
    ensures |Insert(R, q, Region(B, E - B))| == |R| + 1
  {
    hide AddWalk;
  }

  lemma ClearIsClear(R: seq<Region>, B: nat, E: nat)
    requires B < E && Clear(R, B, E)
    ensures !Reaches(R, E) && !Abuts(R, B, E)
  {
  }

  lemma InsertSeparated(R: seq<Region>, i: nat, r: Region)
    requires i <= |R| && Separated(R) && Nonempty(R) && r.size > 0
    requires forall j :: 0 <= j < i ==> R[j].End() < r.base
    requires forall j :: i <= j < |R| ==> r.End() < R[j].base
    ensures Separated(Insert(R, i, r)) && Nonempty(Insert(R, i, r))
  {
    var P := Insert(R, i, r);
    assert forall j :: 0 <= j < |P| ==> P[j] == if j < i then R[j] else if j == i then r else R[j - 1];
  }

  /** The walk passes every region below a clear range and stops. */
  lemma {:induction false} ClearWalk(R: seq<Region>, B: nat, E: nat, i: nat) returns (q: nat)
    requires Separated(R) && B < E && Clear(R, B, E) && i <= |R|
    requires forall j :: 0 <= j < i ==> R[j].End() < B
    ensures AddWalk(R, i, B, E) == Walk(R, q, B) && i <= q <= |R|
    ensures forall j :: 0 <= j < q ==> R[j].End() < B
    ensures forall j :: q <= j < |R| ==> E < R[j].base
    decreases |R| - i
  {
    if i < |R| && R[i].base < E {
      q := ClearWalk(R, B, E, i + 1);
    } else {
      q := i;
      forall j | i <= j < |R| ensures E < R[j].base {
        assert i < j ==> R[i].End() < R[j].base;
      }
    }
  }

  // --- adds that leave the regions as tidy as they were ------------------------------------

  /** Some region begins below the range and reaches its end. */
  ghost predicate Inside(R: seq<Region>, B: nat, E: nat) {
    exists j :: 0 <= j < |R| && R[j].base < B && E <= R[j].End()
  }

  /** Two neighbours before entry n touch. */
  ghost predicate TouchBefore(R: seq<Region>, n: nat) {
    exists t :: 0 <= t && t + 2 <= n <= |R| && R[t].End() == R[t + 1].base
  }

  /** The walk leaves alone what it has passed. */
  lemma {:induction false} PassedStays(R: seq<Region>, i: nat, base: nat, E: nat)
    requires i <= |R|
    ensures var w := AddWalk(R, i, base, E); i <= w.i <= |w.regs| && w.regs[..i] == R[..i]
    decreases |R| - i
  {
    hide AddWalk, Insert;
    WalkTurn(R, i, base, E);
    if i < |R| && R[i].base < E {
      var next := if R[i].End() < E then R[i].End() else E;
      if R[i].End() <= base {
        PassedStays(R, i + 1, base, E);
        ShorterPrefix(AddWalk(R, i, base, E).regs, R, i, i + 1);
      } else if R[i].base < base {
        PassedStays(R, i + 1, next, E);
        ShorterPrefix(AddWalk(R, i, base, E).regs, R, i, i + 1);
      } else {
        var R' := Inserted(R, i, base);
        InsertAt(R, i, Region(base, R[i].base - base), R');
        PassedStays(R', i + 2, next, E);
        ShorterPrefix(AddWalk(R, i, base, E).regs, R', i, i + 2);
        assert R'[..i] == R[..i];
      }
    }
  }

  lemma ShorterPrefix(P: seq<Region>, R: seq<Region>, i: nat, j: nat)
    requires i <= j <= |P| && j <= |R| && P[..j] == R[..j]
    ensures P[..i] == R[..i]
  {
    assert P[..i] == P[..j][..i] && R[..i] == R[..j][..i];
  }

  /** A gap in front of a region, even an empty one, touches it for good. */
  lemma GapTouches(R: seq<Region>, i: nat, base: nat, E: nat)
    requires i < |R| && base <= R[i].base < E && base < R[i].End()
    ensures var w := AddWalk(R, i, base, E); w.i <= |w.regs| && TouchBefore(w.regs, w.i)
  {
    hide AddWalk, Insert;
    var gap, next := Region(base, R[i].base - base), if R[i].End() < E then R[i].End() else E;
    var R' := Inserted(R, i, base);
    InsertAt(R, i, gap, R');
    WalkTurn(R, i, base, E);
    PassedStays(R', i + 2, next, E);
    var w := AddWalk(R, i, base, E);
    assert w.regs[i] == w.regs[..i + 2][i] == R'[i] && w.regs[i + 1] == w.regs[..i + 2][i + 1] == R'[i + 1];
  }

  /** What the walk does to separated regions from where nothing overlaps the range yet: it meets
      no overlap, or a region that holds the range, or it inserts a gap, or it stops behind a
      region that the last piece will touch. */
  lemma {:induction false} WalkVerdict(R: seq<Region>, i: nat, B: nat, E: nat)
    requires Separated(R) && Nonempty(R) && B < E && i <= |R|
    ensures var w := AddWalk(R, i, B, E);
      || w == Walk(R, w.i, B)
      || Inside(R, B, E)
      || TouchBefore(w.regs, w.i)
      || (w.regs == R && 0 < w.i <= |R| && R[w.i - 1].End() == w.base < E)
    decreases |R| - i
  {
    hide AddWalk;
    WalkTurn(R, i, B, E);
    if i < |R| && R[i].base < E {
      if R[i].End() <= B {
        WalkVerdict(R, i + 1, B, E);
      } else if R[i].base >= B {
        GapTouches(R, i, B, E);
      } else if R[i].End() < E {
        WalkTurn(R, i + 1, R[i].End(), E);
        if i + 1 < |R| && R[i + 1].base < E { GapTouches(R, i + 1, R[i].End(), E); }
      }
    }
  }

  lemma TouchingStays(R: seq<Region>, n: nat, r: Region)
    requires n <= |R| && TouchBefore(R, n)
    ensures !Separated(R) && !Separated(Insert(R, n, r))
  {
    hide Insert;
    var P := Insert(R, n, r);
    InsertAt(R, n, r, P);
    var t :| 0 <= t && t + 2 <= n && R[t].End() == R[t + 1].base;
    assert P[t] == R[t] && P[t + 1] == R[t + 1];
  }

  lemma SeparateTail(R: seq<Region>, n: nat, r: Region)
    requires n <= |R| && Separated(Insert(R, n, r))
    ensures forall j :: 0 <= j < |R| ==> R[j].End() < r.base || r.End() < R[j].base
    ensures n > 0 ==> R[n - 1].End() < r.base
  {
    hide Insert;
    var P := Insert(R, n, r);
    InsertAt(R, n, r, P);
    forall j | 0 <= j < |R|
      ensures if j < n then R[j].End() < r.base else r.End() < R[j].base
    {
      assert P[n] == r && R[j] == P[if j < n then j else j + 1];
    }
  }

  /** Separated pieces come from a clear range or one inside a region, and from no other. */
  lemma SeparatedPieces(R: seq<Region>, B: nat, E: nat)
    requires Separated(R) && Nonempty(R) && B < E && Separated(AddPieces(R, B, E).0)
    ensures Clear(R, B, E) || Inside(R, B, E)
  {
    var w := AddWalk(R, 0, B, E);
    PiecesOfWalk(R, B, E);
    WalkVerdict(R, 0, B, E);
    hide AddPieces, AddWalk, Insert, Separated, Nonempty, Inside;
    var tail := Region(w.base, if w.base < E then E - w.base else 0);
    if TouchBefore(w.regs, w.i) {
      TouchingStays(w.regs, w.i, tail);
    } else if !Inside(R, B, E) {
      SeparateTail(w.regs, w.i, tail);
    }
  }

  /** A range inside a region adds nothing. */
  lemma {:induction false} InsideWalk(R: seq<Region>, B: nat, E: nat, i: nat, j: nat)
    requires Separated(R) && B < E && i <= j < |R| && R[j].base < B && E <= R[j].End()
    ensures AddWalk(R, i, B, E) == Walk(R, j + 1, E)
    decreases j - i
  {
    hide AddWalk;
    WalkTurn(R, i, B, E);
    if i < j {
      assert R[i].End() < R[j].base;
      InsideWalk(R, B, E, i + 1, j);
    } else {
      WalkTurn(R, j + 1, E, E);
      assert j + 1 < |R| ==> R[j].End() < R[j + 1].base;
    }
  }

  lemma InsideAddIsTidy(A: seq<Region>, cnt: nat, B: nat, E: nat)
    requires cnt < |A| && Separated(A[..cnt]) && B < E && Inside(A[..cnt], B, E)
    ensures var (P, i) := AddPieces(A[..cnt], B, E);
      P == A[..cnt] && Fuse(P + A[|P|..], |P|, i)[..|P|] == P
    ensures forall a: nat :: B <= a < E ==> Covers(A[..cnt], a)
  {
    hide AddWalk, AddPieces, Fuse;
    var R := A[..cnt];
    var j :| 0 <= j < |R| && R[j].base < B && E <= R[j].End();
    InsideWalk(R, B, E, 0, j);
    PiecesOfWalk(R, B, E);
    forall a: nat | B <= a < E
      ensures Covers(R, a)
    {
      IsCover(R, j, a);
    }
    var W := R + A[|R|..];
    SameFires(W, R, j + 1);
    NothingTouches(R, j + 1);
    QuietFusion(W, |R|, j + 1);
  }

  lemma NothingTouches(R: seq<Region>, i: nat)
    requires Separated(R) && i <= |R|
    ensures !Fires(R, |R|, i)
  {
  }

  /** The exact condition that chains: separated nonempty regions are separated and nonempty again
      after an add, and cover exactly the old regions and the range, if and only if the range is
      clear of all regions, or inside one that begins below it. */
  lemma AddStaysTidyExactlyWhen(A: seq<Region>, cnt: nat, B: nat, E: nat)
    requires cnt <= |A| && Separated(A[..cnt]) && Nonempty(A[..cnt]) && B < E
    requires |AddPieces(A[..cnt], B, E).0| < |A|
    ensures var (P, i) := AddPieces(A[..cnt], B, E);
      var F := Fuse(P + A[|P|..], |P|, i)[..|P|];
      && (Separated(F) && Nonempty(F) <==> Clear(A[..cnt], B, E) || Inside(A[..cnt], B, E))
      && (Separated(F) && Nonempty(F) ==>
           && (forall a: nat :: Covers(F, a) <==> Covers(A[..cnt], a) || B <= a < E)
           && (PageAligned(A[..cnt]) && B % PAGE_SIZE == 0 && E % PAGE_SIZE == 0 ==> PageAligned(F))
           && |F| == if Clear(A[..cnt], B, E) then cnt + 1 else cnt)
  {
    hide AddPieces, Fuse, Separated, Nonempty, Clear, Inside, Covers, PageAligned, Sorted, Reaches, Abuts, Fires;
    var R := A[..cnt];
    var (P, i) := AddPieces(R, B, E);
    var F := Fuse(P + A[|P|..], |P|, i)[..|P|];
    if Clear(R, B, E) {
      ClearAddIsTidy(A, cnt, B, E);
    } else if Inside(R, B, E) {
      PiecesGrow(R, B, E);
      InsideAddIsTidy(A, cnt, B, E);
    } else if Separated(F) {
      PiecesAreRight(R, B, E);
      SeparatedIsSorted(F);
      FusionVerdict(P + A[|P|..], P, i);
      SeparatedPieces(R, B, E);
    }
  }

  lemma {:induction false} WalkCount(R: seq<Region>, i: nat, base: nat, E: nat)
    requires i <= |R|
    ensures |AddWalk(R, i, base, E).regs| <= |R| + (|R| - i)
    decreases |R| - i
  {
    hide AddWalk, Insert;
    WalkTurn(R, i, base, E);
    if i < |R| && R[i].base < E {
      var next := if R[i].End() < E then R[i].End() else E;
      if R[i].End() <= base {
        WalkCount(R, i + 1, base, E);
      } else if R[i].base < base {
        WalkCount(R, i + 1, next, E);
      } else {
        var R' := Inserted(R, i, base);
        WalkCount(R', i + 2, next, E);
      }
    }
  }

  /** How many entries an add can need. */
  lemma PieceCount(R: seq<Region>, B: nat, E: nat)
    requires Separated(R) && Nonempty(R) && B < E
    ensures |AddPieces(R, B, E).0| <= if Clear(R, B, E) || Inside(R, B, E) then |R| + 1 else 2 * |R| + 1
  {
    hide AddWalk, Separated, Nonempty, Clear, Inside;
    PiecesOfWalk(R, B, E);
    WalkCount(R, 0, B, E);
    if Clear(R, B, E) {
      ClearAddKeepsSeparated(R, B, E);
    } else if Inside(R, B, E) {
      InsideAddIsTidy(R + [Region(0, 0)], |R|, B, E);
      assert (R + [Region(0, 0)])[..|R|] == R;
    }
  }

  lemma PiecesGrow(R: seq<Region>, B: nat, E: nat)
    ensures |AddPieces(R, B, E).0| >= |R|
  {
  }

  lemma SeparatedIsSorted(R: seq<Region>)
    requires Separated(R)
    ensures Sorted(R)
  {
  }

  /** An add that leaves the regions sorted and exact can leave an empty one in front, ... */
  lemma EmptyInFront(rest: seq<Region>)
    requires rest != []
    ensures var R := [Region(0x1000, 0x2000)];
      var (P, i) := AddPieces(R, 0x1000, 0x2000);
      && Reaches(R, 0x2000) && |P| == 2 && i == 2
      && Fuse(P + rest, 2, 2)[..2] == [Region(0x1000, 0), Region(0x1000, 0x2000)]
  {
    var R, P := [Region(0x1000, 0x2000)], [Region(0x1000, 0), Region(0x1000, 0x2000)];
    assert R[0].base < 0x2000 <= R[0].End();
    WalkTurn(R, 0, 0x1000, 0x2000);
    assert Insert(R, 0, Region(0x1000, 0)) == P;
    WalkTurn(P, 2, 0x2000, 0x2000);
    PiecesOfWalk(R, 0x1000, 0x2000);
    QuietFusion(P + rest, 2, 2);
  }

  /** A range that starts with a region and reaches far beyond it: an empty region in front, and the
      fused one twice. */
  lemma LongerRangeTwice(rest: seq<Region>)
    requires rest != []
    ensures var (P, i) := AddPieces([Region(0x1_0000, 0x9_0000)], 0x1_0000, 0x4000_0000);
      && |P| == 3 && i == 2
      && Fuse(P + rest, 3, 2)[..3] ==
           [Region(0x1_0000, 0), Region(0x1_0000, 0x3FFF_0000), Region(0x1_0000, 0x3FFF_0000)]
  {
    var R, Q := [Region(0x1_0000, 0x9_0000)], [Region(0x1_0000, 0), Region(0x1_0000, 0x9_0000)];
    var P := Q + [Region(0xA_0000, 0x3FF6_0000)];
    WalkTurn(R, 0, 0x1_0000, 0x4000_0000);
    assert Insert(R, 0, Region(0x1_0000, 0)) == Q;
    WalkTurn(Q, 2, 0xA_0000, 0x4000_0000);
    PiecesOfWalk(R, 0x1_0000, 0x4000_0000);
    assert Insert(Q, 2, Region(0xA_0000, 0x3FF6_0000)) == P;
    FuseLongerRange(P + rest);
  }

  lemma FuseLongerRange(A: seq<Region>)
    requires |A| > 3
    requires A[..3] == [Region(0x1_0000, 0), Region(0x1_0000, 0x9_0000), Region(0xA_0000, 0x3FF6_0000)]
    ensures Fuse(A, 3, 2)[..3] ==
      [Region(0x1_0000, 0), Region(0x1_0000, 0x3FFF_0000), Region(0x1_0000, 0x3FFF_0000)]
  {
    assert A[0] == A[..3][0] && A[1] == A[..3][1] && A[2] == A[..3][2];
    var F := FusePrev(A, 3, 2);
    assert F[0] == Region(0x1_0000, 0) && F[1] == F[2] == Region(0x1_0000, 0x3FFF_0000);
    assert Fuse(A, 3, 2) == FuseNext(F, 3, 2);
  }

  /** One turn of the walk. */
  lemma WalkTurn(R: seq<Region>, i: nat, base: nat, nend: nat)
    requires i <= |R|
    ensures i == |R| || R[i].base >= nend ==> AddWalk(R, i, base, nend) == Walk(R, i, base)
    ensures i < |R| && R[i].base < nend ==>
      var next := if R[i].End() < nend then R[i].End() else nend;
      if R[i].End() <= base then AddWalk(R, i, base, nend) == AddWalk(R, i + 1, base, nend)
      else if R[i].base < base then AddWalk(R, i, base, nend) == AddWalk(R, i + 1, next, nend)
      else
        var R' := Insert(R, i, Region(base, R[i].base - base));
        && |R'| == |R| + 1 && |AddWalk(R, i, base, nend).regs| > |R|
        && AddWalk(R, i, base, nend) == AddWalk(R', i + 2, next, nend)
  {
  }

  lemma PiecesOfWalk(R: seq<Region>, B: nat, E: nat)
    ensures var w := AddWalk(R, 0, B, E);
      AddPieces(R, B, E) ==
        (if w.base < E then Insert(w.regs, w.i, Region(w.base, E - w.base)) else w.regs, w.i)
    ensures |AddWalk(R, 0, B, E).regs| + (if AddWalk(R, 0, B, E).base < E then 1 else 0) == |AddPieces(R, B, E).0|
  {
    hide AddWalk;
  }
}
