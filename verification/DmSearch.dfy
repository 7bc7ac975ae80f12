/** The data-mask search: one pass over a joined axis of positions, where position -d is DM
    delay d and position +d is a strobe shift of d. */
module DmSearch {

  /** All positions b..e lie on the axis lo..hi and pass. */
  ghost predicate IsRun(pass: int -> bool, lo: int, hi: int, b: int, e: int) {
    lo <= b <= e <= hi && forall p :: b <= p <= e ==> pass(p)
  }

  /** [b, e] is the leftmost of the longest runs, `win` its length; 0 when nothing passes. */
  ghost predicate IsBest(pass: int -> bool, lo: int, hi: int, b: int, e: int, win: int) {
    if win == 0 then forall p :: lo <= p <= hi ==> !pass(p)
    else
      && IsRun(pass, lo, hi, b, e) && win == e - b + 1
      && forall b', e' :: IsRun(pass, lo, hi, b', e') ==> e' - b' < e - b || (e' - b' == e - b && b <= b')
  }

  /** The run still open at the right end of lo..hi starts at `b`; `none` when hi fails. */
  ghost predicate IsOpen(pass: int -> bool, lo: int, hi: int, b: int, none: int) {
    if b == none then !pass(hi)
    else IsRun(pass, lo, hi, b, hi) && (b == lo || !pass(b - 1))
  }

  /** One more passing position. */
  lemma ExtendPass(pass: int -> bool, lo: int, p: int, b: int, e: int, win: int, open: int, none: int)
    requires lo < p < none && IsBest(pass, lo, p - 1, b, e, win) && IsOpen(pass, lo, p - 1, open, none) && pass(p)
    requires win >= 0
    ensures var bgn := if open == none then p else open;
            && IsOpen(pass, lo, p, bgn, none)
            && if p - bgn + 1 > win then IsBest(pass, lo, p, bgn, p, p - bgn + 1) else IsBest(pass, lo, p, b, e, win)
  {
    var bgn := if open == none then p else open;
    forall b', e' | IsRun(pass, lo, p, b', e')
      ensures e' == p ==> bgn <= b'
      ensures e' < p ==> win > 0 && (e' - b' < e - b || (e' - b' == e - b && b <= b'))
    {
      if e' < p {
        assert IsRun(pass, lo, p - 1, b', e') && pass(b');
      }
      assert b' <= bgn - 1 <= e' ==> pass(bgn - 1);
    }
    assert IsRun(pass, lo, p, bgn, p);
    if win > 0 {
      assert IsRun(pass, lo, p, b, e);
    }
  }

  /** One more failing position. */
  lemma ExtendFail(pass: int -> bool, lo: int, p: int, b: int, e: int, win: int)
    requires lo < p && IsBest(pass, lo, p - 1, b, e, win) && !pass(p)
    ensures IsBest(pass, lo, p, b, e, win)
  {
    forall b', e' | IsRun(pass, lo, p, b', e')
      ensures IsRun(pass, lo, p - 1, b', e')
    {
      assert e' != p;
    }
    if win != 0 {
      assert IsRun(pass, lo, p, b, e);
    }
  }

  /** The early exit: after a failure at p, the remaining positions up to `hi` are too few to beat
      a best run longer than their number. */
  lemma EarlyExitIsExact(pass: int -> bool, lo: int, p: int, hi: int, b: int, e: int, win: int)
    requires lo <= p <= hi && IsBest(pass, lo, p, b, e, win) && !pass(p) && win - 1 > hi - p
    ensures IsBest(pass, lo, hi, b, e, win)
  {
    forall b', e' | IsRun(pass, lo, hi, b', e')
      ensures e' - b' < e - b || (e' - b' == e - b && b <= b')
    {
      assert b' != p && e' != p;
      if b' < p {
        assert e' < p;
        assert IsRun(pass, lo, p, b', e');
      }
    }
    assert IsRun(pass, lo, hi, b, e);
  }

  /** The answer does not depend on how it is found. */
  lemma BestIsUnique(pass: int -> bool, lo: int, hi: int, b: int, e: int, win: int, b': int, e': int, win': int)
    requires IsBest(pass, lo, hi, b, e, win) && IsBest(pass, lo, hi, b', e', win')
    ensures win == win' && (win != 0 ==> b == b' && e == e')
  {
    if win != 0 {
      assert pass(b);
    }
    if win' != 0 {
      assert pass(b');
    }
  }

  /** The variables of the search after the positions lo..hi; `none` is the illegal value. */
  datatype Search = Search(bgnCurr: int, endCurr: int, bgnBest: int, endBest: int, winBest: nat) {
    ghost predicate Covers(pass: int -> bool, lo: int, hi: int, none: int) {
      && IsBest(pass, lo, hi, bgnBest, endBest, winBest)
      && IsOpen(pass, lo, hi, bgnCurr, none)
      && endCurr == (if bgnCurr == none then none else hi)
      && (winBest == 0 ==> bgnBest == endBest == none)
    }
  }

  /** One test of the search: the window variables after position p passed or failed. Position p
      is the next one, the very first, or the last one once more. */
  method Visit(ghost pass: int -> bool, ghost lo: int, ghost hi: int, p: int, none: int, ok: bool, s: Search)
    returns (r: Search)
    requires lo <= p < none && ok == pass(p)
    requires if hi < lo then p == lo && s == Search(none, none, none, none, 0)
             else hi <= p <= hi + 1 && s.Covers(pass, lo, hi, none)
    ensures r.Covers(pass, lo, p, none)
    ensures !ok ==> r.winBest == s.winBest
  {
    r := s;
    if ok {
      if hi < lo {
        assert IsRun(pass, lo, lo, lo, lo);
      } else if p == hi + 1 {
        ExtendPass(pass, lo, p, s.bgnBest, s.endBest, s.winBest, s.bgnCurr, none);
      } else {
        OpenIsNotBetter(pass, lo, hi, s, none);
      }
      r := r.(endCurr := p);
      if r.bgnCurr == none {
        r := r.(bgnCurr := p);
      }
      if r.endCurr - r.bgnCurr + 1 > r.winBest {
        r := r.(winBest := r.endCurr - r.bgnCurr + 1, bgnBest := r.bgnCurr, endBest := r.endCurr);
      }
    } else {
      if lo <= hi < p {
        ExtendFail(pass, lo, p, s.bgnBest, s.endBest, s.winBest);
      }
      r := r.(bgnCurr := none, endCurr := none);
    }
  }

  /** Testing the last position again cannot enlarge the best run. */
  lemma OpenIsNotBetter(pass: int -> bool, lo: int, hi: int, s: Search, none: int)
    requires lo <= hi < none && s.Covers(pass, lo, hi, none) && pass(hi)
    ensures s.bgnCurr != none && hi - s.bgnCurr + 1 <= s.winBest
  {
  }
}
